/** The handful of string operations the order monitor applies to addresses
    and error messages: ASCII lower-casing, substring search, stripping a
    repeated leading "0x" (`str::trim_start_matches`) and deleting every
    "0x" (`str::replace`). */
module Text {

  function LowerChar(c: char): (r: char)
    ensures 'A' <= c <= 'Z' ==> r as int == c as int + 32
    ensures !('A' <= c <= 'Z') ==> r == c
  {
    if 'A' <= c <= 'Z' then (c as int + 32) as char else c
  }

  /** True when `s` has no upper-case ASCII letter. */
  predicate IsLower(s: string) {
    forall i :: 0 <= i < |s| ==> !('A' <= s[i] <= 'Z')
  }

  /** `str::to_lowercase` on ASCII letters only. The monitor lower-cases
      whole error texts and locker strings, but only to compare or search
      them for a hexadecimal address; Unicode lower-casing agrees with this
      one on ASCII letters and turns no other character into an ASCII hex
      digit, so those outcomes are the same. */
  function ToLower(s: string): (r: string)
    ensures |r| == |s|
    ensures forall i :: 0 <= i < |s| ==> r[i] == LowerChar(s[i])
    ensures IsLower(r)
  {
    if |s| == 0 then [] else [LowerChar(s[0])] + ToLower(s[1..])
  }

  /** Lower-casing a lower-case string changes nothing. */
  lemma ToLowerIdempotent(s: string)
    ensures ToLower(ToLower(s)) == ToLower(s)
  {
    var t := ToLower(s);
    assert forall i :: 0 <= i < |t| ==> LowerChar(t[i]) == t[i];
  }

  /** Lower-casing distributes over concatenation. */
  lemma ToLowerAppend(a: string, b: string)
    ensures ToLower(a + b) == ToLower(a) + ToLower(b)
  {
    var l, r := ToLower(a + b), ToLower(a) + ToLower(b);
    assert |l| == |r|;
    forall i | 0 <= i < |l|
      ensures l[i] == r[i]
    {
      if i < |a| {
        assert (a + b)[i] == a[i];
      } else {
        assert (a + b)[i] == b[i - |a|];
      }
    }
  }

  /** `p` occurs in `s` starting at index `i`. */
  predicate OccursAt(s: string, p: string, i: int) {
    0 <= i && i + |p| <= |s| && s[i..i + |p|] == p
  }

  /** `str::contains` with a string pattern. */
  function Contains(s: string, p: string): (r: bool)
    ensures r <==> exists i :: OccursAt(s, p, i)
    decreases |s|
  {
    if p <= s then
      assert OccursAt(s, p, 0);
      true
    else if |s| == 0 then
      false
    else
      var r := Contains(s[1..], p);
      ContainsShift(s, p);
      r
  }

  /** An occurrence at a positive index of `s` is an occurrence in `s[1..]`. */
  lemma ContainsShift(s: string, p: string)
    requires |s| > 0 && !(p <= s)
    ensures (exists i :: OccursAt(s, p, i)) <==> (exists j :: OccursAt(s[1..], p, j))
  {
    if i :| OccursAt(s, p, i) {
      assert i != 0;
      assert s[1..][i - 1..i - 1 + |p|] == s[i..i + |p|];
      assert OccursAt(s[1..], p, i - 1);
    }
    if j :| OccursAt(s[1..], p, j) {
      assert s[j + 1..j + 1 + |p|] == s[1..][j..j + |p|];
      assert OccursAt(s, p, j + 1);
    }
  }

  /** `p` is "0x" repeated zero or more times. */
  predicate IsRepeated0x(p: string)
    decreases |p|
  {
    |p| == 0 || ("0x" <= p && IsRepeated0x(p[2..]))
  }

  /** `str::trim_start_matches("0x")`: removes every repetition of "0x" at
      the front, so the result never starts with "0x" and what was removed
      is "0x" repeated. */
  function TrimLeading0x(s: string): (r: string)
    ensures |r| <= |s| && s == s[..|s| - |r|] + r
    ensures IsRepeated0x(s[..|s| - |r|])
    ensures !("0x" <= r)
    decreases |s|
  {
    if "0x" <= s then
      var r := TrimLeading0x(s[2..]);
      assert s[..|s| - |r|][2..] == s[2..][..|s| - 2 - |r|];
      r
    else
      s
  }

  /** One more "0x" in front is trimmed along with the rest. */
  lemma TrimLeading0xPrefix(s: string)
    ensures TrimLeading0x("0x" + s) == TrimLeading0x(s)
  {
    var t := "0x" + s;
    assert "0x" <= t && t[2..] == s;
  }

  /** `str::replace("0x", "")`: scans left to right and drops each
      non-overlapping occurrence of "0x". */
  function Remove0x(s: string): (r: string)
    ensures |r| <= |s|
    ensures (|s| - |r|) % 2 == 0
    ensures !Contains(s, "0x") ==> r == s
    decreases |s|
  {
    if |s| == 0 then
      []
    else if "0x" <= s then
      Remove0x(s[2..])
    else
      var rest := Remove0x(s[1..]);
      NoOccurrenceInTail(s);
      [s[0]] + rest
  }

  /** A string with no 'x' has no "0x" to remove. */
  lemma {:induction false} Remove0xWithoutX(h: string)
    requires forall i :: 0 <= i < |h| ==> h[i] != 'x'
    ensures Remove0x(h) == h
  {
    if |h| > 0 {
      assert !("0x" <= h) by {
        if |h| >= 2 { assert h[1] != 'x'; }
      }
      Remove0xWithoutX(h[1..]);
      assert h == [h[0]] + h[1..];
    }
  }

  /** For an address written "0x" followed by digits without an 'x', the
      prefix is the only thing `replace("0x", "")` deletes. */
  lemma Remove0xAddress(h: string)
    requires forall i :: 0 <= i < |h| ==> h[i] != 'x'
    ensures Remove0x("0x" + h) == h
  {
    var a := "0x" + h;
    assert "0x" <= a && a[2..] == h;
    Remove0xWithoutX(h);
  }

  /** A string without "0x" has a tail without "0x". */
  lemma NoOccurrenceInTail(s: string)
    requires |s| > 0
    ensures !Contains(s, "0x") ==> !Contains(s[1..], "0x")
  {
    if Contains(s[1..], "0x") {
      var j :| OccursAt(s[1..], "0x", j);
      assert s[j + 1..j + 3] == s[1..][j..j + 2];
      assert OccursAt(s, "0x", j + 1);
    }
  }

  /** Joins `parts` with `sep` between consecutive parts, as
      `Vec<String>::join`. */
  function Join(parts: seq<string>, sep: string): string {
    if |parts| == 0 then []
    else if |parts| == 1 then parts[0]
    else parts[0] + sep + Join(parts[1..], sep)
  }
}
