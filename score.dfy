/** The score accumulator: each confirmed answer adds one to the total,
    one to the correct count when the chosen entry is the target, and
    otherwise one to the target's miss count.

    The miss history is a JavaScript object keyed by entry id. Such an
    object keeps its (non-numeric) string keys in insertion order, and
    that order is what the summary later sorts, so the history is
    modelled as a sequence of entries: updating a key keeps its place,
    a new key goes at the end. */
module Score {
  import opened Kana

  /** One key of the miss history with its count. */
  datatype Entry = Entry(id: string, count: nat)

  /** The running tally of a session. */
  datatype GameStats = GameStats(total: nat, correct: nat, wrongHistory: seq<Entry>)

  /** The tally a session starts from. */
  const InitialStats := GameStats(0, 0, [])

  /** No key occurs twice: always true of an object's keys. */
  predicate DistinctKeys(h: seq<Entry>) {
    forall i, j :: 0 <= i < j < |h| ==> h[i].id != h[j].id
  }

  /** The keys present in the history. */
  function Keys(h: seq<Entry>): set<string> {
    set i | 0 <= i < |h| :: h[i].id
  }

  /** The count stored under `id`, or 0 when the key is absent
      (`history[id] || 0`). */
  function Lookup(h: seq<Entry>, id: string): (v: nat)
    ensures id !in Keys(h) ==> v == 0
  {
    if h == [] then 0
    else if h[0].id == id then h[0].count
    else Lookup(h[1..], id)
  }

  /** The object spread `{...h, [id]: v}`: an existing key is overwritten
      where it stands, a new key is appended. */
  function Assign(h: seq<Entry>, id: string, v: nat): (r: seq<Entry>)
    ensures Keys(r) == Keys(h) + {id}
    ensures |r| == if id in Keys(h) then |h| else |h| + 1
    ensures forall i :: 0 <= i < |h| ==> r[i].id == h[i].id
    ensures id !in Keys(h) ==> r[|h|] == Entry(id, v)
  {
    if h == [] then
      assert [Entry(id, v)][0].id == id;
      [Entry(id, v)]
    else if h[0].id == id then
      KeysCons(Entry(id, v), h[1..]);
      KeysCons(h[0], h[1..]);
      assert h == [h[0]] + h[1..];
      [Entry(id, v)] + h[1..]
    else
      var rest := Assign(h[1..], id, v);
      KeysCons(h[0], rest);
      KeysCons(h[0], h[1..]);
      assert h == [h[0]] + h[1..];
      [h[0]] + rest
  }

  /** The keys of an entry followed by a history. */
  lemma KeysCons(e: Entry, t: seq<Entry>)
    ensures Keys([e] + t) == {e.id} + Keys(t)
  {
    var c := [e] + t;
    assert c[0] == e;
    forall k | k in Keys(t) ensures k in Keys(c) {
      var i :| 0 <= i < |t| && t[i].id == k;
      assert c[i + 1] == t[i];
    }
  }

  /** What assigning `v` to `id` does to a history with distinct keys. */
  ghost predicate AssignUpdated(h: seq<Entry>, id: string, v: nat) {
    && DistinctKeys(Assign(h, id, v))
    && Lookup(Assign(h, id, v), id) == v
    && forall k :: k != id ==> Lookup(Assign(h, id, v), k) == Lookup(h, k)
  }

  /** The tail of a history with distinct keys has distinct keys, none
      of them the head's. */
  lemma TailDistinct(h: seq<Entry>)
    requires h != [] && DistinctKeys(h)
    ensures DistinctKeys(h[1..]) && h[0].id !in Keys(h[1..])
  {
    var t := h[1..];
    forall i, j | 0 <= i < j < |t| ensures t[i].id != t[j].id {
      assert t[i] == h[i + 1] && t[j] == h[j + 1];
    }
  }

  /** An entry whose key is new, in front of a history with distinct
      keys, gives a history with distinct keys. */
  lemma ConsDistinct(e: Entry, t: seq<Entry>)
    requires DistinctKeys(t) && e.id !in Keys(t)
    ensures DistinctKeys([e] + t)
  {
    var r := [e] + t;
    forall i, j | 0 <= i < j < |r| ensures r[i].id != r[j].id {
      assert r[j] == t[j - 1];
      if i > 0 {
        assert r[i] == t[i - 1];
      }
    }
  }

  lemma LookupCons(e: Entry, t: seq<Entry>, k: string)
    ensures Lookup([e] + t, k) == if e.id == k then e.count else Lookup(t, k)
  {
    assert ([e] + t)[1..] == t;
  }

  /** On a history whose keys are distinct, assigning keeps them distinct,
      stores `v` under `id` and leaves every other key as it was. */
  lemma {:induction false} AssignUpdates(h: seq<Entry>, id: string, v: nat)
    requires DistinctKeys(h)
    ensures DistinctKeys(Assign(h, id, v))
    ensures Lookup(Assign(h, id, v), id) == v
    ensures forall k :: k != id ==> Lookup(Assign(h, id, v), k) == Lookup(h, k)
  {
    if h == [] {
      assert Assign(h, id, v) == [Entry(id, v)] + [];
      forall k ensures Lookup(Assign(h, id, v), k) == if k == id then v else 0 {
        LookupCons(Entry(id, v), [], k);
      }
    } else {
      var t := h[1..];
      assert h == [h[0]] + t;
      TailDistinct(h);
      if h[0].id == id {
        assert Assign(h, id, v) == [Entry(id, v)] + t;
        ConsDistinct(Entry(id, v), t);
        forall k ensures Lookup(Assign(h, id, v), k) == if k == id then v else Lookup(h, k) {
          LookupCons(Entry(id, v), t, k);
          LookupCons(h[0], t, k);
        }
      } else {
        var rt := Assign(t, id, v);
        assert Assign(h, id, v) == [h[0]] + rt;
        AssignUpdates(t, id, v);
        assert h[0].id !in Keys(rt);
        ConsDistinct(h[0], rt);
        forall k ensures Lookup(Assign(h, id, v), k) == if k == id then v else Lookup(h, k) {
          LookupCons(h[0], rt, k);
          LookupCons(h[0], t, k);
        }
      }
    }
  }

  /** The miss-history update of a wrong answer:
      `{...h, [id]: (h[id] || 0) + 1}`. */
  function RecordMiss(h: seq<Entry>, id: string): (r: seq<Entry>)
    ensures Keys(r) == Keys(h) + {id}
    ensures DistinctKeys(h) ==> DistinctKeys(r)
    ensures DistinctKeys(h) ==> Lookup(r, id) == Lookup(h, id) + 1
    ensures DistinctKeys(h) ==> forall k :: k != id ==> Lookup(r, k) == Lookup(h, k)
  {
    var v := Lookup(h, id) + 1;
    assert DistinctKeys(h) ==> AssignUpdated(h, id, v) by {
      if DistinctKeys(h) {
        AssignUpdates(h, id, v);
      }
    }
    Assign(h, id, v)
  }

  /** `confirmAnswer`: the tally after the learner picks `chosen` for a
      question whose target is `target`. Only ids are compared; a right
      answer leaves the history as it was, a miss adds one to the
      target's count (from 0 when it had none) and to no other key. */
  function ConfirmAnswer(prev: GameStats, chosen: KanaChar, target: KanaChar): (next: GameStats)
    ensures next.total == prev.total + 1
    ensures next.correct == prev.correct + 1 <==> chosen.id == target.id
    ensures next.correct == prev.correct || next.correct == prev.correct + 1
    ensures chosen.id == target.id ==> next.wrongHistory == prev.wrongHistory
    ensures chosen.id != target.id ==> Keys(next.wrongHistory) == Keys(prev.wrongHistory) + {target.id}
    ensures DistinctKeys(prev.wrongHistory) ==> DistinctKeys(next.wrongHistory)
    ensures DistinctKeys(prev.wrongHistory) && chosen.id != target.id ==>
              Lookup(next.wrongHistory, target.id) == Lookup(prev.wrongHistory, target.id) + 1
    ensures DistinctKeys(prev.wrongHistory) ==>
              forall k :: k != target.id ==> Lookup(next.wrongHistory, k) == Lookup(prev.wrongHistory, k)
  {
    var isCorrect := chosen.id == target.id;
    GameStats(
      prev.total + 1,
      if isCorrect then prev.correct + 1 else prev.correct,
      if isCorrect then prev.wrongHistory else RecordMiss(prev.wrongHistory, target.id))
  }

  /** One confirmed answer: what was chosen and what was asked. */
  datatype Answer = Answer(chosen: KanaChar, target: KanaChar)

  /** The tally after a session's answers, confirmed in order. */
  function Replay(answers: seq<Answer>): GameStats
  {
    if answers == [] then InitialStats
    else
      var last := answers[|answers| - 1];
      ConfirmAnswer(Replay(answers[..|answers| - 1]), last.chosen, last.target)
  }

  /** How many answers chose the target. */
  function CorrectCount(answers: seq<Answer>): nat {
    if answers == [] then 0
    else
      var last := answers[|answers| - 1];
      CorrectCount(answers[..|answers| - 1]) + if last.chosen.id == last.target.id then 1 else 0
  }

  /** How many answers missed a target with id `id`. */
  function MissCount(answers: seq<Answer>, id: string): nat {
    if answers == [] then 0
    else
      var last := answers[|answers| - 1];
      MissCount(answers[..|answers| - 1], id) +
        if last.chosen.id != last.target.id && last.target.id == id then 1 else 0
  }

  /** The tally is the count of answers, of right answers, and per id of
      misses: the history holds a key exactly for the ids missed at least
      once, each once, with its number of misses. */
  lemma {:induction false} ReplayTallies(answers: seq<Answer>)
    ensures Replay(answers).total == |answers|
    ensures Replay(answers).correct == CorrectCount(answers)
    ensures DistinctKeys(Replay(answers).wrongHistory)
    ensures forall id :: Lookup(Replay(answers).wrongHistory, id) == MissCount(answers, id)
    ensures forall id :: id in Keys(Replay(answers).wrongHistory) <==> MissCount(answers, id) > 0
  {
    if answers != [] {
      var init := answers[..|answers| - 1];
      var last := answers[|answers| - 1];
      ReplayTallies(init);
    }
  }

  /** The tally never counts more right answers than answers, and the
      misses recorded add up with the right answers to the total. */
  lemma {:induction false} CorrectAtMostTotal(answers: seq<Answer>)
    ensures Replay(answers).correct <= Replay(answers).total
    ensures Replay(answers).correct + TotalMisses(answers) == Replay(answers).total
  {
    if answers != [] {
      CorrectAtMostTotal(answers[..|answers| - 1]);
    }
  }

  /** How many answers missed, whatever the target. */
  function TotalMisses(answers: seq<Answer>): nat {
    if answers == [] then 0
    else
      var last := answers[|answers| - 1];
      TotalMisses(answers[..|answers| - 1]) + if last.chosen.id != last.target.id then 1 else 0
  }

  /** In a history with distinct keys, looking up an entry's key gives
      that entry's count. */
  lemma {:induction false} LookupFinds(h: seq<Entry>, e: Entry)
    requires DistinctKeys(h) && e in h
    ensures Lookup(h, e.id) == e.count
  {
    if h[0] != e {
      var t := h[1..];
      assert e in t;
      assert DistinctKeys(t) by {
        forall i, j | 0 <= i < j < |t| ensures t[i].id != t[j].id {
          assert t[i] == h[i + 1] && t[j] == h[j + 1];
        }
      }
      assert h[0].id != e.id by {
        var k :| 0 <= k < |t| && t[k] == e;
        assert h[k + 1] == e;
      }
      LookupFinds(t, e);
    }
  }

  /** Two misses on one entry and then a right answer on it: three
      answers, one right, and a history holding that entry's id with two
      misses. */
  lemma TwoMissesThenHit(a: KanaChar, other: KanaChar)
    requires a.id != other.id
    ensures var stats := Replay([Answer(other, a), Answer(other, a), Answer(a, a)]);
      && stats.total == 3 && stats.correct == 1
      && stats.wrongHistory == [Entry(a.id, 2)]
  {
    var one := [Answer(other, a)];
    var two := one + [Answer(other, a)];
    var three := two + [Answer(a, a)];
    assert one[..0] == [] && two[..1] == one && three[..2] == two;
    assert Replay(one) == GameStats(1, 0, [Entry(a.id, 1)]);
    assert Replay(two).wrongHistory == Assign([Entry(a.id, 1)], a.id, 2);
    assert Replay(two) == GameStats(2, 0, [Entry(a.id, 2)]);
    assert three == [Answer(other, a), Answer(other, a), Answer(a, a)];
  }
}
