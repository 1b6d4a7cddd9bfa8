/**
 * Glossary entries and the pure rules the application applies to them: the
 * search predicate and the filtered view it produces, the display rule for
 * long definitions, and the list updates behind edit and remove.
 */
module Glossary {
  import opened Text

  /** A glossary entry (`Termo`): a word and its definition. */
  datatype Term = Term(word: string, definition: string)

  // ---------------------------------------------------------------------------
  // Search

  /**
   * The search predicate for an already lower-cased query `needle`: it occurs
   * in the lower-cased word or in the lower-cased definition.
   */
  predicate Matches(t: Term, needle: string) {
    Contains(Lower(t.word), needle) || Contains(Lower(t.definition), needle)
  }

  /** An entry matches exactly when the needle occurs somewhere in its lower-cased word or definition. */
  lemma MatchesIff(t: Term, needle: string)
    ensures Matches(t, needle) <==>
      (exists i :: OccursAt(Lower(t.word), needle, i)) || (exists i :: OccursAt(Lower(t.definition), needle, i))
  {
  }

  /** Strictly increasing indices: an order-preserving selection without repeats. */
  ghost predicate Increasing(s: seq<nat>) {
    forall i, j :: 0 <= i < j < |s| ==> s[i] < s[j]
  }

  /** Every index in `s` is a position of a list of length `n`. */
  ghost predicate Below(s: seq<nat>, n: nat) {
    forall j :: 0 <= j < |s| ==> s[j] < n
  }

  /** A strictly increasing selection of positions below `n` has at most `n` elements. */
  lemma {:induction false} IncreasingBounded(s: seq<nat>, n: nat)
    requires Increasing(s) && Below(s, n)
    ensures |s| <= n
  {
    if s != [] {
      var m := s[|s| - 1];
      var p := s[..|s| - 1];
      assert Increasing(p) && Below(p, m);
      IncreasingBounded(p, m);
    }
  }

  /** Two strictly increasing selections with the same members are the same sequence. */
  lemma {:induction false} IncreasingUnique(s: seq<nat>, t: seq<nat>)
    requires Increasing(s) && Increasing(t)
    requires forall x :: x in s <==> x in t
    ensures s == t
  {
    assert s != [] ==> s[0] in t;
    assert t != [] ==> t[0] in s;
    if s != [] && t != [] {
      // The first elements are both the least member.
      assert s[0] == t[0];
      forall x ensures x in s[1..] <==> x in t[1..] {
        if x in s[1..] {
          var i :| 1 <= i < |s| && s[i] == x;
          assert x in t && x != t[0];
        }
        if x in t[1..] {
          var i :| 1 <= i < |t| && t[i] == x;
          assert x in s && x != s[0];
        }
      }
      IncreasingUnique(s[1..], t[1..]);
      assert s == [s[0]] + s[1..] && t == [t[0]] + t[1..];
    }
  }

  /**
   * The positions of `data` whose entries match `needle`, in list order: the
   * `filter`/`collect` stream of the search.
   */
  function Select(data: seq<Term>, needle: string): (r: seq<nat>)
    ensures Increasing(r) && Below(r, |data|)
  {
    if data == [] then []
    else
      var n := |data| - 1;
      Select(data[..n], needle) + (if Matches(data[n], needle) then [n] else [])
  }

  /** `Select` keeps a position exactly when its entry matches. */
  lemma {:induction false} SelectKeepsMatches(data: seq<Term>, needle: string)
    ensures forall i :: 0 <= i < |data| ==> (i in Select(data, needle) <==> Matches(data[i], needle))
  {
    if data != [] {
      var n := |data| - 1;
      SelectKeepsMatches(data[..n], needle);
      assert forall i :: 0 <= i < n ==> data[..n][i] == data[i];
    }
  }

  /** Every position `0, 1, ..., n - 1`, in order: the copy of the whole list. */
  function AllIndices(n: nat): (r: seq<nat>)
    ensures |r| == n && Increasing(r)
    ensures forall i :: 0 <= i < n ==> r[i] == i
  {
    seq(n, i requires 0 <= i < n => i)
  }

  /** The entries at the selected positions. */
  function Project(data: seq<Term>, rows: seq<nat>): (r: seq<Term>)
    requires Below(rows, |data|)
    ensures |r| == |rows|
    ensures forall j {:trigger r[j]} :: 0 <= j < |rows| ==> r[j] == data[rows[j]]
  {
    seq(|rows|, j requires 0 <= j < |rows| => data[rows[j]])
  }

  /**
   * The filtered view for search text `query`: a copy of the whole list when
   * the lower-cased query is empty, otherwise the matching positions.
   */
  function View(data: seq<Term>, query: string): (r: seq<nat>)
    ensures Increasing(r) && Below(r, |data|) && |r| <= |data|
    ensures query == [] ==> Project(data, r) == data
  {
    var needle := Lower(query);
    var r := if needle == [] then AllIndices(|data|) else Select(data, needle);
    IncreasingBounded(r, |data|);
    r
  }

  /**
   * The view holds a position exactly when its entry matches the lower-cased
   * query; with an empty query every entry matches.
   */
  lemma ViewKeepsMatches(data: seq<Term>, query: string)
    ensures forall i :: 0 <= i < |data| ==> (i in View(data, query) <==> Matches(data[i], Lower(query)))
  {
    var needle := Lower(query);
    if needle == [] {
      forall i | 0 <= i < |data| ensures i in View(data, query) && Matches(data[i], needle) {
        assert View(data, query)[i] == i;
        assert OccursAt(Lower(data[i].word), needle, 0);
      }
    } else {
      SelectKeepsMatches(data, needle);
    }
  }

  /**
   * The empty-query branch is the general filter specialised: with an empty
   * needle every entry matches, so both branches give the same view.
   */
  lemma {:induction false} EmptyNeedleSelectsAll(data: seq<Term>)
    ensures Select(data, []) == AllIndices(|data|)
  {
    forall i | 0 <= i < |data| ensures Matches(data[i], []) {
      assert OccursAt(Lower(data[i].word), [], 0);
    }
    SelectKeepsMatches(data, []);
    var s, t := Select(data, []), AllIndices(|data|);
    forall x ensures x in s <==> x in t {
      if x in t {
        var j :| 0 <= j < |t| && t[j] == x;
        assert x in s;
      }
      if x in s {
        var j :| 0 <= j < |s| && s[j] == x;
        assert t[x] == x;
      }
    }
    IncreasingUnique(s, t);
  }

  /**
   * The view is the one order-preserving selection of exactly the matching
   * entries: any strictly increasing list of positions holding them is it.
   */
  lemma ViewIsUnique(data: seq<Term>, query: string, rows: seq<nat>)
    requires Increasing(rows) && Below(rows, |data|)
    requires forall i :: 0 <= i < |data| ==> (i in rows <==> Matches(data[i], Lower(query)))
    ensures rows == View(data, query)
  {
    var v := View(data, query);
    ViewKeepsMatches(data, query);
    forall x ensures x in rows <==> x in v {
      if x in rows {
        var j :| 0 <= j < |rows| && rows[j] == x;
      }
      if x in v {
        var j :| 0 <= j < |v| && v[j] == x;
      }
    }
    IncreasingUnique(rows, v);
  }

  /** Searching is case-insensitive in the query: upper or lower case give the same view. */
  lemma ViewIgnoresQueryCase(data: seq<Term>, query: string)
    ensures View(data, Lower(query)) == View(data, query)
  {
    LowerIdempotent(query);
    ViewKeepsMatches(data, query);
    ViewIsUnique(data, Lower(query), View(data, query));
  }

  /**
   * Appending an entry keeps the view of the earlier entries and adds the new
   * position at the end exactly when the new entry matches.
   */
  lemma {:induction false} ViewAfterAppend(data: seq<Term>, t: Term, query: string)
    ensures View(data + [t], query)
         == View(data, query) + (if Matches(t, Lower(query)) then [|data|] else [])
  {
  }

  // ---------------------------------------------------------------------------
  // Display

  /** Longest definition, in UTF-16 code units, the table shows untruncated. */
  const MaxShown: nat := 100

  /** Marker appended to a truncated definition: three full stops (U+002E). */
  const Ellipsis: seq<CodeUnit> := [0x2E, 0x2E, 0x2E]

  /**
   * What the table's definition column shows for `definition`, measured and
   * cut in UTF-16 code units as Java does; the cut may split a surrogate pair.
   */
  function Shown(definition: string): (r: seq<CodeUnit>)
    ensures |r| <= MaxShown + |Ellipsis|
    ensures |Utf16(definition)| <= MaxShown ==> r == Utf16(definition)
    ensures |Utf16(definition)| > MaxShown ==>
      |r| == MaxShown + |Ellipsis| && r[..MaxShown] == Utf16(definition)[..MaxShown] && r[MaxShown..] == Ellipsis
  {
    var u := Utf16(definition);
    if |u| > MaxShown then u[..MaxShown] + Ellipsis else u
  }

  /**
   * The table shows a definition unchanged exactly when it is at most 100
   * code units long, or is 103 units long and already ends in the marker.
   */
  lemma ShownUnchangedIff(definition: string)
    ensures var u := Utf16(definition);
      Shown(definition) == u <==>
      |u| <= MaxShown || (|u| == MaxShown + |Ellipsis| && u[MaxShown..] == Ellipsis)
  {
  }

  /**
   * For text inside the Basic Multilingual Plane the rule counts characters:
   * at most 100 are shown whole, a longer text shows its first 100 and the marker.
   */
  lemma ShownOfBmp(definition: string)
    requires forall i :: 0 <= i < |definition| ==> definition[i] as int < 0x1_0000
    ensures |definition| <= MaxShown ==> Shown(definition) == Utf16(definition)
    ensures |definition| > MaxShown ==> Shown(definition) == Utf16(definition[..MaxShown]) + Ellipsis
  {
    Utf16OfBmp(definition);
    if |definition| > MaxShown {
      Utf16PrefixOfBmp(definition, MaxShown);
    }
  }

  /**
   * Characters outside the Basic Multilingual Plane count twice: sixty of
   * them exceed the limit, so the definition is cut although it holds only
   * sixty characters.
   */
  lemma WideCharactersCountTwice(definition: string)
    requires |definition| == 60
    requires forall i :: 0 <= i < |definition| ==> definition[i] as int >= 0x1_0000
    ensures Shown(definition) != Utf16(definition)
    ensures |Shown(definition)| == MaxShown + |Ellipsis|
  {
    Utf16OutsideBmp(definition);
  }

  // ---------------------------------------------------------------------------
  // List updates

  /** The list with its `k`-th entry removed. */
  function RemoveAt(s: seq<Term>, k: nat): (r: seq<Term>)
    requires k < |s|
    ensures |r| == |s| - 1
    ensures forall i :: 0 <= i < k ==> r[i] == s[i]
    ensures forall i :: k <= i < |r| ==> r[i] == s[i + 1]
    ensures multiset(r) + multiset{s[k]} == multiset(s)
  {
    assert s == s[..k] + [s[k]] + s[k + 1..];
    s[..k] + s[k + 1..]
  }

  /**
   * `List.remove(Object)` under value equality: the first entry equal to `x`
   * is removed, and the list is unchanged when there is none.
   */
  function RemoveFirst(s: seq<Term>, x: Term): (r: seq<Term>)
    ensures x in s ==> |r| == |s| - 1 && multiset(r) + multiset{x} == multiset(s)
    ensures x !in s ==> r == s
  {
    if s == [] then []
    else if s[0] == x then
      assert s == [s[0]] + s[1..];
      s[1..]
    else
      assert s == [s[0]] + s[1..];
      [s[0]] + RemoveFirst(s[1..], x)
  }

  /**
   * Removing the `k`-th entry and removing the first entry equal to it agree
   * when no earlier entry has the same word and definition.
   */
  lemma {:induction false} RemoveFirstIsRemoveAt(s: seq<Term>, k: nat)
    requires k < |s|
    requires forall j :: 0 <= j < k ==> s[j] != s[k]
    ensures RemoveFirst(s, s[k]) == RemoveAt(s, k)
  {
    if k > 0 {
      assert s[1..][k - 1] == s[k];
      RemoveFirstIsRemoveAt(s[1..], k - 1);
      assert RemoveAt(s, k) == [s[0]] + RemoveAt(s[1..], k - 1);
    }
  }

  /** The list with the `k`-th entry's definition replaced by `d`. */
  function Redefine(s: seq<Term>, k: nat, d: string): (r: seq<Term>)
    requires k < |s|
    ensures |r| == |s|
    ensures forall i :: 0 <= i < |s| ==> r[i].word == s[i].word
    ensures forall i :: 0 <= i < |s| && i != k ==> r[i] == s[i]
    ensures r[k].definition == d
  {
    s[k := Term(s[k].word, d)]
  }
}
