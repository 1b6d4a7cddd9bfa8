/**
 * The three string operations the glossary relies on: `trim`, `toLowerCase`
 * and `contains`, as the Java runtime defines them for the application's
 * strings. `trim` is exact (it strips every leading and trailing character at
 * or below U+0020); lower-casing is restricted to the ASCII letters. Java
 * measures and cuts strings in UTF-16 code units, so `Utf16` gives that view
 * of a string.
 */
module Text {

  /** A character `trim` strips: any code point up to and including the space. */
  predicate IsTrimmable(c: char) {
    c <= ' '
  }

  /** The first index at or after `i` that `trim` keeps, or `|s|` when there is none. */
  function TextStart(s: string, i: nat): (a: nat)
    requires i <= |s|
    ensures i <= a <= |s|
    ensures forall j :: i <= j < a ==> IsTrimmable(s[j])
    ensures a == |s| || !IsTrimmable(s[a])
    decreases |s| - i
  {
    if i < |s| && IsTrimmable(s[i]) then TextStart(s, i + 1) else i
  }

  /**
   * The end of the text in `s[a..b]`: the least `e` such that everything in
   * `s[e..b]` is trimmable, and `a` when all of `s[a..b]` is.
   */
  function TextEnd(s: string, a: nat, b: nat): (e: nat)
    requires a <= b <= |s|
    ensures a <= e <= b
    ensures forall j :: e <= j < b ==> IsTrimmable(s[j])
    ensures e == a || !IsTrimmable(s[e - 1])
  {
    if a < b && IsTrimmable(s[b - 1]) then TextEnd(s, a, b - 1) else b
  }

  /**
   * `r` is the slice of `s` starting at `a` and everything of `s` outside that
   * slice is trimmable.
   */
  ghost predicate TrimmedAt(s: string, r: string, a: int) {
    0 <= a && a + |r| <= |s| && r == s[a..a + |r|] &&
    (forall i :: 0 <= i < a ==> IsTrimmable(s[i])) &&
    (forall i :: a + |r| <= i < |s| ==> IsTrimmable(s[i]))
  }

  /** Java's `String.trim`: the text between the leading and trailing trimmable runs. */
  function Trim(s: string): string {
    var a := TextStart(s, 0);
    s[a..TextEnd(s, a, |s|)]
  }

  /**
   * `Trim(s)` is a slice of `s` with only trimmable characters outside it,
   * and it neither starts nor ends with one.
   */
  lemma TrimSpec(s: string)
    ensures exists a :: TrimmedAt(s, Trim(s), a)
    ensures Trim(s) == [] || (!IsTrimmable(Trim(s)[0]) && !IsTrimmable(Trim(s)[|Trim(s)| - 1]))
  {
    var a := TextStart(s, 0);
    var e := TextEnd(s, a, |s|);
    assert Trim(s) == s[a..e];
    assert TrimmedAt(s, s[a..e], a);
  }

  /** Java's `s.trim().isEmpty()`. */
  predicate IsBlank(s: string) {
    Trim(s) == []
  }

  /** A string is blank exactly when every one of its characters is trimmable. */
  lemma BlankIffAllTrimmable(s: string)
    ensures IsBlank(s) <==> forall i :: 0 <= i < |s| ==> IsTrimmable(s[i])
  {
  }

  /** Trimming twice strips nothing more than trimming once. */
  lemma TrimIdempotent(s: string)
    ensures Trim(Trim(s)) == Trim(s)
  {
  }

  /** ASCII lower-casing of one character; every other character is kept. */
  function LowerChar(c: char): (d: char)
    ensures !('A' <= d <= 'Z')
    ensures 'A' <= c <= 'Z' ==> 'a' <= d <= 'z' && d as int - 'a' as int == c as int - 'A' as int
    ensures 'a' <= c <= 'z' || !('A' <= c <= 'Z') ==> d == c
  {
    if 'A' <= c <= 'Z' then (c as int - 'A' as int + 'a' as int) as char else c
  }

  /** `String.toLowerCase` on the ASCII letters. */
  function Lower(s: string): (r: string)
    ensures |r| == |s|
    ensures forall i :: 0 <= i < |s| ==> r[i] == LowerChar(s[i])
  {
    seq(|s|, i requires 0 <= i < |s| => LowerChar(s[i]))
  }

  /** Lower-casing a lower-cased string changes nothing. */
  lemma LowerIdempotent(s: string)
    ensures Lower(Lower(s)) == Lower(s)
  {
  }

  /** `q` occurs in `s` starting at index `i`. */
  ghost predicate OccursAt(s: string, q: string, i: int) {
    0 <= i && i + |q| <= |s| && s[i..i + |q|] == q
  }

  lemma OccursAtShift(s: string, q: string)
    requires s != []
    ensures forall i :: 0 <= i ==> (OccursAt(s[1..], q, i) <==> OccursAt(s, q, i + 1))
  {
  }

  /** Java's `s.contains(q)`: some occurrence of `q` in `s`. */
  function Contains(s: string, q: string): (r: bool)
    ensures r <==> exists i :: OccursAt(s, q, i)
  {
    if q <= s then
      assert OccursAt(s, q, 0);
      true
    else if s == [] then
      false
    else
      OccursAtShift(s, q);
      assert OccursAt(s, q, 0) == false;
      assert forall i :: OccursAt(s, q, i) ==> i == 0 || OccursAt(s[1..], q, i - 1);
      Contains(s[1..], q)
  }

  // ---------------------------------------------------------------------------
  // UTF-16

  /** A UTF-16 code unit: what Java's `String.length` counts and `substring` cuts at. */
  newtype CodeUnit = x: int | 0 <= x < 0x1_0000

  /**
   * The UTF-16 encoding of one character: the character itself inside the
   * Basic Multilingual Plane, otherwise a high and a low surrogate that
   * together give back the character.
   */
  function EncodeChar(c: char): (u: seq<CodeUnit>)
    ensures c as int < 0x1_0000 ==> |u| == 1 && u[0] as int == c as int
    ensures c as int >= 0x1_0000 ==>
      |u| == 2 && 0xD800 <= u[0] < 0xDC00 && 0xDC00 <= u[1] < 0xE000 &&
      (u[0] as int - 0xD800) * 0x400 + (u[1] as int - 0xDC00) + 0x1_0000 == c as int
  {
    var n := c as int;
    if n < 0x1_0000 then [n as CodeUnit]
    else
      var m := n - 0x1_0000;
      [(0xD800 + m / 0x400) as CodeUnit, (0xDC00 + m % 0x400) as CodeUnit]
  }

  /** Java's view of a string: its UTF-16 code units, one or two per character. */
  function Utf16(s: string): (u: seq<CodeUnit>)
    ensures |s| <= |u| <= 2 * |s|
  {
    if s == [] then [] else EncodeChar(s[0]) + Utf16(s[1..])
  }

  /** Encoding distributes over concatenation. */
  lemma {:induction false} Utf16Append(a: string, b: string)
    ensures Utf16(a + b) == Utf16(a) + Utf16(b)
  {
    if a == [] {
      assert a + b == b;
    } else {
      assert (a + b)[0] == a[0] && (a + b)[1..] == a[1..] + b;
      Utf16Append(a[1..], b);
    }
  }

  /**
   * Text inside the Basic Multilingual Plane has one code unit per character,
   * so Java's length and positions are the character count and positions.
   */
  lemma {:induction false} Utf16OfBmp(s: string)
    requires forall i :: 0 <= i < |s| ==> s[i] as int < 0x1_0000
    ensures |Utf16(s)| == |s|
    ensures forall i :: 0 <= i < |s| ==> Utf16(s)[i] as int == s[i] as int
  {
    if s != [] {
      Utf16OfBmp(s[1..]);
      assert forall i :: 1 <= i < |s| ==> Utf16(s)[i] == Utf16(s[1..])[i - 1];
    }
  }

  /** Inside the Basic Multilingual Plane the first `n` units are the units of the first `n` characters. */
  lemma Utf16PrefixOfBmp(s: string, n: nat)
    requires n <= |s|
    requires forall i :: 0 <= i < |s| ==> s[i] as int < 0x1_0000
    ensures Utf16(s)[..n] == Utf16(s[..n])
  {
    assert s == s[..n] + s[n..];
    Utf16Append(s[..n], s[n..]);
    Utf16OfBmp(s[..n]);
  }

  /** Text made only of characters outside the Basic Multilingual Plane has two units per character. */
  lemma {:induction false} Utf16OutsideBmp(s: string)
    requires forall i :: 0 <= i < |s| ==> s[i] as int >= 0x1_0000
    ensures |Utf16(s)| == 2 * |s|
  {
    if s != [] {
      Utf16OutsideBmp(s[1..]);
    }
  }
}
