/** The string helpers the script relies on: `toLowerCase`, `toUpperCase`,
    `trim`, `includes` and the `capitalizeFirst` utility. Case mapping is
    modelled on ASCII letters only. */
module Text {

  predicate IsUpperAscii(c: char) { 'A' <= c <= 'Z' }

  predicate IsLowerAscii(c: char) { 'a' <= c <= 'z' }

  /** `toLowerCase` on one character (ASCII letters only). */
  function LowerChar(c: char): (r: char)
    ensures !IsUpperAscii(r)
    ensures r != c ==> IsUpperAscii(c) && IsLowerAscii(r)
    ensures IsUpperAscii(c) ==> r as int == c as int + 32
  {
    if IsUpperAscii(c) then (c as int + 32) as char else c
  }

  /** `toUpperCase` on one character (ASCII letters only). */
  function UpperChar(c: char): (r: char)
    ensures !IsLowerAscii(r)
    ensures r != c ==> IsLowerAscii(c) && IsUpperAscii(r)
    ensures IsLowerAscii(c) ==> r as int == c as int - 32
    ensures LowerChar(r) == LowerChar(c)
  {
    if IsLowerAscii(c) then (c as int - 32) as char else c
  }

  /** `String.prototype.toLowerCase`. */
  function Lower(s: string): (r: string)
    ensures |r| == |s|
    ensures forall k :: 0 <= k < |r| ==> !IsUpperAscii(r[k])
    ensures forall k :: 0 <= k < |r| ==> r[k] == s[k] || (IsUpperAscii(s[k]) && IsLowerAscii(r[k]))
    ensures forall k :: 0 <= k < |r| && IsUpperAscii(s[k]) ==> r[k] as int == s[k] as int + 32
  {
    seq(|s|, k requires 0 <= k < |s| => LowerChar(s[k]))
  }

  lemma LowerIdempotent(s: string)
    ensures Lower(Lower(s)) == Lower(s)
  {
  }

  /** The code points `String.prototype.trim` strips: ECMAScript WhiteSpace
      and LineTerminator. */
  predicate IsSpace(c: char) {
    var n := c as int;
    || n == 0x09 || n == 0x0A || n == 0x0B || n == 0x0C || n == 0x0D || n == 0x20
    || n == 0xA0 || n == 0x1680 || (0x2000 <= n <= 0x200A) || n == 0x2028 || n == 0x2029
    || n == 0x202F || n == 0x205F || n == 0x3000 || n == 0xFEFF
  }

  predicate AllSpace(s: string) {
    forall k :: 0 <= k < |s| ==> IsSpace(s[k])
  }

  lemma AllSpaceConcat(a: string, b: string)
    ensures AllSpace(a + b) <==> AllSpace(a) && AllSpace(b)
  {
    if AllSpace(a + b) {
      forall k | 0 <= k < |b| ensures IsSpace(b[k]) { assert (a + b)[|a| + k] == b[k]; }
      forall k | 0 <= k < |a| ensures IsSpace(a[k]) { assert (a + b)[k] == a[k]; }
    }
  }

  function TrimStart(s: string): (r: string)
    ensures |r| <= |s| && r == s[|s| - |r|..]
    ensures AllSpace(s[..|s| - |r|])
    ensures r == [] || !IsSpace(r[0])
  {
    if |s| > 0 && IsSpace(s[0]) then
      var r := TrimStart(s[1..]);
      assert s[..|s| - |r|] == [s[0]] + s[1..][..|s| - 1 - |r|];
      AllSpaceConcat([s[0]], s[1..][..|s| - 1 - |r|]);
      r
    else s
  }

  function TrimEnd(s: string): (r: string)
    ensures |r| <= |s| && r == s[..|r|]
    ensures AllSpace(s[|r|..])
    ensures r == [] || !IsSpace(r[|r| - 1])
  {
    if |s| > 0 && IsSpace(s[|s| - 1]) then
      var r := TrimEnd(s[..|s| - 1]);
      assert s[|r|..] == s[..|s| - 1][|r|..] + [s[|s| - 1]];
      AllSpaceConcat(s[..|s| - 1][|r|..], [s[|s| - 1]]);
      r
    else s
  }

  /** `r` is `s` with its leading and trailing white space removed, `r`
      starting at index `i`: everything around it is white space, and it
      neither starts nor ends with white space. */
  ghost predicate TrimmedAt(r: string, s: string, i: int) {
    && 0 <= i && i + |r| <= |s| && s[i..i + |r|] == r
    && AllSpace(s[..i]) && AllSpace(s[i + |r|..])
    && (r == [] || (!IsSpace(r[0]) && !IsSpace(r[|r| - 1])))
  }

  ghost predicate IsTrimOf(r: string, s: string) {
    exists i :: TrimmedAt(r, s, i)
  }

  /** Stripping the front and then the back of `s` yields its trim. */
  lemma TrimmedFromParts(s: string, a: string, r: string)
    requires |a| <= |s| && a == s[|s| - |a|..] && AllSpace(s[..|s| - |a|]) && (a == [] || !IsSpace(a[0]))
    requires |r| <= |a| && r == a[..|r|] && AllSpace(a[|r|..]) && (r == [] || !IsSpace(r[|r| - 1]))
    ensures TrimmedAt(r, s, |s| - |a|)
  {
    var i := |s| - |a|;
    assert s[i..i + |r|] == r;
    assert s[i + |r|..] == a[|r|..];
    if r != [] {
      assert r[0] == a[0];
    }
  }

  /** `String.prototype.trim`. */
  function Trim(s: string): (r: string)
    ensures IsTrimOf(r, s)
  {
    var a := TrimStart(s);
    var r := TrimEnd(a);
    TrimmedFromParts(s, a, r);
    r
  }

  /** Every character of a trim comes from the trimmed string. */
  lemma TrimOfElements(r: string, s: string)
    requires IsTrimOf(r, s)
    ensures forall k :: 0 <= k < |r| ==> r[k] in s
  {
    var i :| TrimmedAt(r, s, i);
    forall k | 0 <= k < |r| ensures r[k] in s {
      assert s[i..i + |r|][k] == s[i + k];
    }
  }

  /** A string with no white space at either end is its own trim. */
  lemma TrimKeepsTrimmed(s: string)
    requires s == [] || (!IsSpace(s[0]) && !IsSpace(s[|s| - 1]))
    ensures Trim(s) == s
  {
    assert TrimStart(s) == s;
    assert TrimEnd(s) == s;
  }

  /** Trimming twice is trimming once. */
  lemma TrimIdempotent(s: string)
    ensures Trim(Trim(s)) == Trim(s)
  {
    TrimKeepsTrimmed(Trim(s));
  }

  /** Trimming leaves nothing exactly when the string is all white space. */
  lemma TrimEmptyIffBlank(s: string)
    ensures Trim(s) == [] <==> AllSpace(s)
  {
    var r := Trim(s);
    var i :| TrimmedAt(r, s, i);
    if r == [] {
      assert s == s[..i] + s[i..];
      AllSpaceConcat(s[..i], s[i..]);
    } else {
      assert s[i] == r[0];
    }
  }

  /** Lower-casing neither creates nor removes white space. */
  lemma LowerKeepsBlank(s: string)
    ensures AllSpace(Lower(s)) <==> AllSpace(s)
  {
    if AllSpace(Lower(s)) {
      forall k | 0 <= k < |s| ensures IsSpace(s[k]) {
        assert IsSpace(Lower(s)[k]);
      }
    }
  }

  /** `needle` occurs in `hay` starting at index `i`. */
  ghost predicate OccursAt(hay: string, needle: string, i: int) {
    0 <= i && i + |needle| <= |hay| && hay[i..i + |needle|] == needle
  }

  /** `String.prototype.includes`: plain substring search. */
  function Contains(hay: string, needle: string): (r: bool)
    ensures r <==> exists i :: OccursAt(hay, needle, i)
    decreases |hay|
  {
    if |needle| <= |hay| && hay[..|needle|] == needle then
      assert OccursAt(hay, needle, 0);
      true
    else if |hay| == 0 then
      assert forall i :: !OccursAt(hay, needle, i);
      false
    else
      var r := Contains(hay[1..], needle);
      assert forall i :: OccursAt(hay[1..], needle, i) <==> OccursAt(hay, needle, i + 1) by {
        forall i ensures OccursAt(hay[1..], needle, i) <==> OccursAt(hay, needle, i + 1) {
          if 0 <= i && i + |needle| <= |hay| - 1 {
            assert hay[1..][i..i + |needle|] == hay[i + 1..i + 1 + |needle|];
          }
        }
      }
      assert !OccursAt(hay, needle, 0);
      assert (exists i :: OccursAt(hay, needle, i)) ==> exists i :: OccursAt(hay[1..], needle, i) by {
        if i :| OccursAt(hay, needle, i) {
          assert i != 0;
          assert OccursAt(hay[1..], needle, i - 1);
        }
      }
      r
  }

  /** The `capitalizeFirst` utility: upper-case the first character, keep the rest. */
  function CapitalizeFirst(s: string): (r: string)
    ensures |r| == |s|
    ensures |s| > 0 ==> r[1..] == s[1..] && !IsLowerAscii(r[0]) && LowerChar(r[0]) == LowerChar(s[0])
  {
    if |s| == 0 then "" else [UpperChar(s[0])] + s[1..]
  }

  /** Capitalising twice is the same as capitalising once, and a string that
      already starts with a non-lower-case character is returned unchanged. */
  lemma CapitalizeFirstIdempotent(s: string)
    ensures CapitalizeFirst(CapitalizeFirst(s)) == CapitalizeFirst(s)
    ensures |s| > 0 && !IsLowerAscii(s[0]) ==> CapitalizeFirst(s) == s
  {
  }
}
