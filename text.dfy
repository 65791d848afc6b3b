/**
 * The java.lang.String operations the table engine relies on, written out:
 * first-index search, joining with a separator, decimal rendering of counts
 * and indices, ASCII lower-casing, and String.indexOf(String, int).
 */
module Text {

  datatype Option<T> = None | Some(value: T)

  /** The index of the first `ch` in `s` at or after `from`, if there is one. */
  function FirstIndex(s: string, ch: char, from: nat): (r: Option<nat>)
    decreases |s| - from
    ensures r.Some? ==> from <= r.value < |s| && s[r.value] == ch
    ensures r.Some? ==> forall j :: from <= j < r.value ==> s[j] != ch
    ensures r.None? ==> forall j :: from <= j < |s| ==> s[j] != ch
  {
    if from >= |s| then None
    else if s[from] == ch then Some(from)
    else FirstIndex(s, ch, from + 1)
  }

  /** The first occurrence is unique: any `ch` with none before it is the one found. */
  lemma {:induction false} FirstIndexIs(s: string, ch: char, from: nat, i: nat)
    requires from <= i < |s| && s[i] == ch
    requires forall j :: from <= j < i ==> s[j] != ch
    ensures FirstIndex(s, ch, from) == Some(i)
  {
  }

  /** Searching a prefix gives the same answer as searching the whole when the prefix holds `ch` past `from`. */
  lemma {:induction false} FirstIndexInPrefix(p: string, rest: string, ch: char, from: nat)
    requires FirstIndex(p, ch, from).Some?
    ensures FirstIndex(p + rest, ch, from) == FirstIndex(p, ch, from)
  {
    var i := FirstIndex(p, ch, from).value;
    FirstIndexIs(p + rest, ch, from, i);
  }

  /**
   * The parts joined with `sep` between neighbours and nowhere else; the shape
   * of a StringBuilder loop that appends the separator before every part but the first.
   */
  function Join(parts: seq<string>, sep: string): string
  {
    if |parts| == 0 then ""
    else if |parts| == 1 then parts[0]
    else Join(parts[..|parts| - 1], sep) + sep + parts[|parts| - 1]
  }

  /** Read from the front: the first part, then the separator, then the rest joined. */
  lemma {:induction false} JoinFront(parts: seq<string>, sep: string)
    requires |parts| >= 2
    ensures Join(parts, sep) == parts[0] + sep + Join(parts[1..], sep)
  {
    if |parts| == 2 {
      assert parts[1..] == [parts[1]];
    } else {
      var init := parts[..|parts| - 1];
      JoinFront(init, sep);
      assert init[1..] == parts[1..][..|parts[1..]| - 1];
      assert init[0] == parts[0];
    }
  }

  /** One more part: the separator (unless it is the first part), then the part. */
  lemma {:induction false} JoinGrow(parts: seq<string>, sep: string, k: nat)
    requires k < |parts|
    ensures Join(parts[..k + 1], sep) == (if k == 0 then "" else Join(parts[..k], sep) + sep) + parts[k]
  {
    assert parts[..k + 1][..k] == parts[..k];
  }

  /** Joining never adds a character that is neither in a part nor in the separator. */
  lemma {:induction false} JoinFree(parts: seq<string>, sep: string, c: char)
    requires c !in sep
    requires forall k :: 0 <= k < |parts| ==> c !in parts[k]
    ensures c !in Join(parts, sep)
  {
    if |parts| >= 2 {
      JoinFree(parts[..|parts| - 1], sep, c);
    }
  }

  predicate IsDigit(c: char)
  {
    '0' <= c <= '9'
  }

  /** The value of a string of decimal digits. */
  function DigitsValue(s: string): nat
    requires forall i :: 0 <= i < |s| ==> IsDigit(s[i])
  {
    if s == [] then 0
    else
      assert IsDigit(s[|s| - 1]);
      10 * DigitsValue(s[..|s| - 1]) + (s[|s| - 1] as int - '0' as int)
  }

  /** Integer.toString for a non-negative int, as StringBuilder.append(int) writes it. */
  function NatToString(n: nat): (r: string)
    ensures |r| >= 1 && forall i :: 0 <= i < |r| ==> IsDigit(r[i])
    ensures DigitsValue(r) == n
    ensures |r| > 1 ==> r[0] != '0'
  {
    if n < 10 then ['0' + n as char]
    else
      var prefix := NatToString(n / 10);
      var r := prefix + ['0' + (n % 10) as char];
      assert r[..|r| - 1] == prefix;
      r
  }

  /** String.toLowerCase restricted to the ASCII letters. */
  function LowerAscii(s: string): (r: string)
    ensures |r| == |s|
    ensures forall i :: 0 <= i < |s| ==> r[i] == if 'A' <= s[i] <= 'Z' then s[i] - 'A' + 'a' else s[i]
  {
    if s == [] then []
    else
      var c := s[0];
      [if 'A' <= c <= 'Z' then c - 'A' + 'a' else c] + LowerAscii(s[1..])
  }

  /** Lowering twice lowers no further: what toLowerCase yields is already lower case. */
  lemma {:induction false} LowerAsciiIdempotent(s: string)
    ensures LowerAscii(LowerAscii(s)) == LowerAscii(s)
  {
    var once := LowerAscii(s);
    assert forall i :: 0 <= i < |s| ==> LowerAscii(once)[i] == once[i];
  }

  /** `term` occurs in `text` starting at index `i`. */
  predicate OccursAt(text: string, term: string, i: nat)
  {
    i + |term| <= |text| && text[i..i + |term|] == term
  }

  /**
   * String.indexOf(term, from): the least index at or after `from` where `term`
   * occurs, or -1. As in Java, an empty term is found at `from`, and at
   * |text| for every `from` past the end.
   */
  function IndexOf(text: string, term: string, from: nat): (r: int)
    decreases |text| - from
    ensures |term| > 0 ==>
      if r == -1 then forall k :: from <= k ==> !OccursAt(text, term, k)
      else from <= r && OccursAt(text, term, r) && forall k :: from <= k < r ==> !OccursAt(text, term, k)
    ensures |term| == 0 ==> r == if from <= |text| then from else |text|
  {
    if from + |term| > |text| then
      if |term| == 0 then |text| else -1
    else if text[from..from + |term|] == term then from
    else IndexOf(text, term, from + 1)
  }
}
