/** The entities of the kana quiz: catalog entries, questions, and the
    fact that a sequence of entries never repeats an id. */
module Kana {

  /** Which of the two scripts an entry belongs to. */
  datatype KanaType = Hiragana | Katakana

  /** Sound class: plain, voiced (including semi-voiced) and contracted. */
  datatype KanaCategory = Seion | Dakuon | Yoon

  /** One catalog entry. The display-only fields (romanization, the audio
      key of one provider and the kanji origin) carry no logic and are
      not part of the model. */
  datatype KanaChar = KanaChar(id: string, glyph: string, kind: KanaType, category: KanaCategory)

  /** A quiz question: the entry to recognise and the options shown. */
  datatype Question = Question(target: KanaChar, options: seq<KanaChar>)

  datatype Option<T> = None | Some(value: T)

  function Min(a: int, b: int): int {
    if a <= b then a else b
  }

  /** Every catalog id is this prefix followed by the entry's character. */
  const IdPrefix: string := "kana_"

  function IdOf(glyph: string): (id: string)
    ensures |id| == |IdPrefix| + |glyph|
    ensures id[..|IdPrefix|] == IdPrefix && id[|IdPrefix|..] == glyph
  {
    IdPrefix + glyph
  }

  /** No two positions of `s` hold entries with the same id. */
  predicate UniqueIds(s: seq<KanaChar>) {
    forall i, j :: 0 <= i < j < |s| ==> s[i].id != s[j].id
  }

  /** The same property, read off the multiset of entries: every entry
      occurs at most once, and two entries with one id are the same entry. */
  ghost predicate UniqueIdsIn(m: multiset<KanaChar>) {
    && (forall x :: m[x] <= 1)
    && (forall x, y :: x in m && y in m && x.id == y.id ==> x == y)
  }

  /** How the catalog builds its ids: `kana_` followed by the character. */
  predicate IdsFromChars(catalog: seq<KanaChar>) {
    forall i :: 0 <= i < |catalog| ==> catalog[i].id == IdOf(catalog[i].glyph)
  }

  /** The catalog's characters are pairwise distinct. */
  predicate DistinctChars(catalog: seq<KanaChar>) {
    forall i, j :: 0 <= i < j < |catalog| ==> catalog[i].glyph != catalog[j].glyph
  }

  /** Ids built as `kana_` + char from distinct chars are unique. */
  lemma DistinctCharsGiveUniqueIds(catalog: seq<KanaChar>)
    requires IdsFromChars(catalog) && DistinctChars(catalog)
    ensures UniqueIds(catalog)
  {
    forall i, j | 0 <= i < j < |catalog|
      ensures catalog[i].id != catalog[j].id
    {
    }
  }

  /** The first entry's id does not recur later in a sequence with
      unique ids. */
  lemma HeadIdNotInTail(s: seq<KanaChar>)
    requires s != []
    ensures UniqueIds(s) ==> UniqueIds(s[1..]) && forall k :: k in s[1..] ==> k.id != s[0].id
  {
    if UniqueIds(s) {
      forall k | k in s[1..] ensures k.id != s[0].id {
        var n :| 0 <= n < |s[1..]| && s[1..][n] == k;
        assert s[n + 1] == k;
      }
    }
  }

  /** Unique ids, read as a property of the multiset of entries. */
  lemma {:induction false} UniqueIdsGiveMultiset(s: seq<KanaChar>)
    requires UniqueIds(s)
    ensures UniqueIdsIn(multiset(s))
  {
    if s != [] {
      var h, t := s[0], s[1..];
      assert s == [h] + t;
      HeadIdNotInTail(s);
      UniqueIdsGiveMultiset(t);
      assert h !in t;
      forall x ensures multiset(s)[x] <= 1 {
        assert multiset(s)[x] == multiset([h])[x] + multiset(t)[x];
      }
    }
  }

  /** The converse: a multiset with unique ids comes only from sequences
      with unique ids. */
  lemma MultisetGivesUniqueIds(s: seq<KanaChar>)
    requires UniqueIdsIn(multiset(s))
    ensures UniqueIds(s)
  {
    forall i, j | 0 <= i < j < |s| ensures s[i].id != s[j].id {
      assert s == s[..j] + s[j..];
      assert s[..j][i] == s[i] && s[j..][0] == s[j];
    }
  }

  /** Reordering keeps ids unique: what a shuffle of the pool preserves. */
  lemma PermutationKeepsUniqueIds(s: seq<KanaChar>, r: seq<KanaChar>)
    requires multiset(r) == multiset(s)
    requires UniqueIds(s)
    ensures UniqueIds(r)
  {
    UniqueIdsGiveMultiset(s);
    MultisetGivesUniqueIds(r);
  }

  /** `s` filtered by `keep`, in order (Array.prototype.filter). */
  function Filter(s: seq<KanaChar>, keep: KanaChar -> bool): (r: seq<KanaChar>)
    ensures |r| <= |s|
    ensures forall k :: k in r <==> k in s && keep(k)
    ensures UniqueIds(s) ==> UniqueIds(r)
  {
    if s == [] then []
    else
      var rest := Filter(s[1..], keep);
      HeadIdNotInTail(s);
      assert forall k :: k in s[1..] ==> k in s;
      if keep(s[0]) then [s[0]] + rest else rest
  }

  /** The entries of `s` whose id is not `id` (the distractor candidates
      of a question whose target has that id). */
  function Others(s: seq<KanaChar>, id: string): (r: seq<KanaChar>)
    ensures forall k :: k in r <==> k in s && k.id != id
  {
    Filter(s, (k: KanaChar) => k.id != id)
  }

  /** Removing one id from a pool with unique ids that holds it drops
      exactly one entry. */
  lemma {:induction false} FilterOutOneId(s: seq<KanaChar>, t: KanaChar)
    requires UniqueIds(s) && t in s
    ensures |Others(s, t.id)| == |s| - 1
  {
    var rest := s[1..];
    assert UniqueIds(rest);
    if s[0] == t {
      FilterKeepsAll(rest, t.id);
    } else {
      assert t in rest;
      FilterOutOneId(rest, t);
      assert s[0].id != t.id by {
        var k :| 0 <= k < |s| && s[k] == t;
        assert k != 0;
      }
    }
  }

  /** Filtering out an id that no entry has keeps every entry. */
  lemma {:induction false} FilterKeepsAll(s: seq<KanaChar>, id: string)
    requires forall k :: k in s ==> k.id != id
    ensures Others(s, id) == s
  {
    if s != [] {
      assert forall k :: k in s[1..] ==> k in s;
      FilterKeepsAll(s[1..], id);
    }
  }

  /** Every entry of a prefix of a reordering of `s` is an entry of `s`:
      how targets and distractors stay inside the pool they are drawn from. */
  lemma PrefixOfPermutationIn(s: seq<KanaChar>, r: seq<KanaChar>, n: nat)
    requires multiset(r) == multiset(s) && n <= |r|
    ensures forall x :: x in r[..n] ==> x in s
  {
    forall x | x in r[..n] ensures x in s {
      assert x in multiset(r);
    }
  }

  /** Putting an entry in front of a sequence with unique ids that does
      not use its id keeps the ids unique. */
  lemma ConsKeepsUniqueIds(t: KanaChar, s: seq<KanaChar>)
    requires UniqueIds(s)
    requires forall k :: k in s ==> k.id != t.id
    ensures UniqueIds([t] + s)
  {
    var c := [t] + s;
    forall i, j | 0 <= i < j < |c| ensures c[i].id != c[j].id {
      assert c[j] == s[j - 1];
      if i > 0 {
        assert c[i] == s[i - 1];
      }
    }
  }
}
