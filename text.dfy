/**
 * The JavaScript string operations the attempt pipeline relies on:
 * `trim`, `toLowerCase`, `split` on one character, `join`, `Array.prototype.indexOf`
 * on a list of strings, and `replace` with a string pattern (first occurrence only).
 */
module Text {

  /** The code points `String.prototype.trim` removes: WhiteSpace and LineTerminator. */
  const SpaceCodes: seq<int> := [0x09, 0x0A, 0x0B, 0x0C, 0x0D, 0x20, 0xA0, 0x1680,
    0x2000, 0x2001, 0x2002, 0x2003, 0x2004, 0x2005, 0x2006, 0x2007, 0x2008, 0x2009, 0x200A,
    0x2028, 0x2029, 0x202F, 0x205F, 0x3000, 0xFEFF]

  predicate Listed(n: int, codes: seq<int>) {
    codes != [] && (codes[0] == n || Listed(n, codes[1..]))
  }

  predicate IsJsSpace(c: char) {
    Listed(c as int, SpaceCodes)
  }

  lemma {:induction false} ListedIn(n: int, codes: seq<int>)
    ensures Listed(n, codes) <==> n in codes
  {
    if codes != [] {
      ListedIn(n, codes[1..]);
      assert n in codes <==> codes[0] == n || n in codes[1..];
    }
  }

  /** No whitespace code point lies between the space and U+00A0. */
  lemma SpaceCodesGap()
    ensures forall k :: 0 <= k < |SpaceCodes| ==> SpaceCodes[k] <= 0x20 || SpaceCodes[k] >= 0xA0
  {
  }

  /** Printable ASCII characters other than the space are not whitespace. */
  lemma PrintableNotSpace(c: char)
    requires 0x21 <= c as int <= 0x7E
    ensures !IsJsSpace(c)
  {
    SpaceCodesGap();
    ListedIn(c as int, SpaceCodes);
  }

  ghost predicate Printable(s: string) {
    forall i :: 0 <= i < |s| ==> 0x21 <= s[i] as int <= 0x7E
  }

  ghost predicate AllSpace(s: string) {
    forall i :: 0 <= i < |s| ==> IsJsSpace(s[i])
  }

  /** Number of whitespace characters at the front of `s`. */
  function LeadingSpaces(s: string): (n: nat)
    ensures n <= |s|
  {
    if s != [] && IsJsSpace(s[0]) then 1 + LeadingSpaces(s[1..]) else 0
  }

  /** Number of whitespace characters at the back of `s`. */
  function TrailingSpaces(s: string): (n: nat)
    ensures n <= |s|
  {
    if s != [] && IsJsSpace(s[|s| - 1]) then 1 + TrailingSpaces(s[..|s| - 1]) else 0
  }

  /** The leading run is all whitespace and stops at the first other character. */
  lemma {:induction false} LeadingSpacesSpec(s: string)
    ensures var n := LeadingSpaces(s);
      AllSpace(s[..n]) && (n < |s| ==> !IsJsSpace(s[n]))
  {
    if s != [] && IsJsSpace(s[0]) {
      LeadingSpacesSpec(s[1..]);
    }
  }

  /** The trailing run is all whitespace and stops at the last other character. */
  lemma {:induction false} TrailingSpacesSpec(s: string)
    ensures var n := TrailingSpaces(s);
      AllSpace(s[|s| - n..]) && (n < |s| ==> !IsJsSpace(s[|s| - 1 - n]))
  {
    if s != [] && IsJsSpace(s[|s| - 1]) {
      var init := s[..|s| - 1];
      TrailingSpacesSpec(init);
    }
  }

  /** `s.trim()`: the middle of `s` once leading and trailing whitespace is cut off. */
  function Trim(s: string): (r: string)
    ensures |r| <= |s|
  {
    var a := LeadingSpaces(s);
    s[a..|s| - TrailingSpaces(s[a..])]
  }

  /**
   * Trimming keeps a contiguous middle part that neither starts nor ends with
   * whitespace, and cuts off only whitespace around it.
   */
  lemma TrimSpec(s: string)
    ensures var r := Trim(s);
      (r == [] || (!IsJsSpace(r[0]) && !IsJsSpace(r[|r| - 1]))) &&
      exists a :: 0 <= a <= |s| - |r| && s[a..a + |r|] == r && AllSpace(s[..a]) && AllSpace(s[a + |r|..])
  {
    var a := LeadingSpaces(s);
    var m := s[a..];
    var b := TrailingSpaces(m);
    LeadingSpacesSpec(s);
    TrailingSpacesSpec(m);
    assert Trim(s) == m[..|m| - b];
    TrimParts(s, a, m, b, Trim(s));
  }

  /** `TrimSpec` for a text cut into leading spaces, a middle part and trailing spaces. */
  lemma TrimParts(s: string, a: nat, m: string, b: nat, r: string)
    requires a <= |s| && m == s[a..] && b <= |m| && r == m[..|m| - b]
    requires AllSpace(s[..a]) && (a < |s| ==> !IsJsSpace(s[a]))
    requires AllSpace(m[|m| - b..]) && (b < |m| ==> !IsJsSpace(m[|m| - 1 - b]))
    ensures r == [] || (!IsJsSpace(r[0]) && !IsJsSpace(r[|r| - 1]))
    ensures exists a :: 0 <= a <= |s| - |r| && s[a..a + |r|] == r && AllSpace(s[..a]) && AllSpace(s[a + |r|..])
  {
    assert m[|m| - b..] == s[a + |r|..];
    if r != [] {
      assert r[0] == s[a];
      assert r[|r| - 1] == m[|m| - 1 - b];
    }
    assert s[a..a + |r|] == r;
  }

  /** Text that neither starts nor ends with whitespace is its own trim. */
  lemma TrimUnchanged(s: string)
    requires s == [] || (!IsJsSpace(s[0]) && !IsJsSpace(s[|s| - 1]))
    ensures Trim(s) == s
  {
  }

  /** Trimming a second time changes nothing. */
  lemma TrimIdempotent(s: string)
    ensures Trim(Trim(s)) == Trim(s)
  {
    TrimSpec(s);
    TrimUnchanged(Trim(s));
  }

  /** The trim is a part of the text, so it holds no character the text does not. */
  lemma TrimWithin(s: string, c: char)
    requires c !in s
    ensures c !in Trim(s)
  {
  }

  lemma PrintableTrim(s: string)
    requires Printable(s)
    ensures Trim(s) == s
  {
    if s != [] {
      PrintableNotSpace(s[0]);
      PrintableNotSpace(s[|s| - 1]);
    }
  }

  /** `line.trim() === ''`. */
  predicate IsBlank(s: string) {
    Trim(s) == ""
  }

  /** A line is blank exactly when every character of it is whitespace. */
  lemma BlankIffAllSpace(s: string)
    ensures IsBlank(s) <==> AllSpace(s)
  {
    var a := LeadingSpaces(s);
    var b := TrailingSpaces(s[a..]);
    LeadingSpacesSpec(s);
    TrailingSpacesSpec(s[a..]);
    if IsBlank(s) {
      assert |s| - b == a;
      forall i | 0 <= i < |s| ensures IsJsSpace(s[i]) {
        assert s[..a][i] == s[i];
      }
    }
  }

  /**
   * `toLowerCase` on one character. Only the mappings that can produce an ASCII letter
   * are modelled: A-Z, and U+212A KELVIN SIGN, which lower-cases to `k`.
   */
  function LowerChar(c: char): (r: char)
    ensures 'A' <= c <= 'Z' ==> r as int == c as int + 32
    ensures ('a' <= r <= 'z') && c != r ==> ('A' <= c <= 'Z' || c as int == 0x212A)
  {
    if 'A' <= c <= 'Z' then (c as int + 32) as char
    else if c as int == 0x212A then 'k'
    else c
  }

  function ToLower(s: string): (r: string)
    ensures |r| == |s|
    ensures forall i :: 0 <= i < |s| ==> r[i] == LowerChar(s[i])
  {
    seq(|s|, i requires 0 <= i < |s| => LowerChar(s[i]))
  }

  /** Text without upper-case ASCII letters and KELVIN SIGN is its own lower case. */
  lemma ToLowerUnchanged(s: string)
    requires forall i :: 0 <= i < |s| ==> !('A' <= s[i] <= 'Z') && s[i] as int != 0x212A
    ensures ToLower(s) == s
  {
  }

  /**
   * Lower-casing leaves a text alone exactly when it holds no upper-case ASCII letter
   * and no KELVIN SIGN.
   */
  lemma LowerFixedPoints(s: string)
    ensures ToLower(s) == s <==> forall i :: 0 <= i < |s| ==> !('A' <= s[i] <= 'Z') && s[i] as int != 0x212A
  {
    if ToLower(s) == s {
      forall i | 0 <= i < |s|
        ensures !('A' <= s[i] <= 'Z') && s[i] as int != 0x212A
      {
        assert LowerChar(s[i]) == s[i];
      }
    }
  }

  /** Lower-casing a second time changes nothing. */
  lemma ToLowerIdempotent(s: string)
    ensures ToLower(ToLower(s)) == ToLower(s)
  {
    forall i | 0 <= i < |s|
      ensures ToLower(ToLower(s))[i] == ToLower(s)[i]
    {
      var c := s[i];
      if 'A' <= c <= 'Z' {
        assert 'a' <= LowerChar(c) <= 'z';
      }
    }
  }

  /**
   * `cell.toLowerCase() === 'true'` holds exactly for the sixteen ASCII spellings of
   * "true" with any mix of cases.
   */
  lemma LowerIsTrue(s: string)
    ensures ToLower(s) == "true" <==>
      |s| == 4 && s[0] in "tT" && s[1] in "rR" && s[2] in "uU" && s[3] in "eE"
  {
    if |s| == 4 && ToLower(s) == "true" {
      assert LowerChar(s[0]) == 't' && LowerChar(s[1]) == 'r';
      assert LowerChar(s[2]) == 'u' && LowerChar(s[3]) == 'e';
    }
    if |s| == 4 && s[0] in "tT" && s[1] in "rR" && s[2] in "uU" && s[3] in "eE" {
      assert ToLower(s) == "true";
    }
  }

  /**
   * `s.split(d)` for a one-character separator: the pieces between separators, in
   * order. There is always at least one piece; `"".split(d)` is `[""]`.
   */
  function Split(s: string, d: char): (r: seq<string>)
    ensures |r| >= 1
    ensures forall k :: 0 <= k < |r| ==> d !in r[k]
  {
    if s == [] then [""]
    else
      var rest := Split(s[1..], d);
      if s[0] == d then [""] + rest
      else [[s[0]] + rest[0]] + rest[1..]
  }

  /** `parts.join(d)`. */
  function Join(parts: seq<string>, d: char): string
    requires |parts| >= 1
  {
    if |parts| == 1 then parts[0] else parts[0] + [d] + Join(parts[1..], d)
  }

  /** Joining the pieces of a split restores the text. */
  lemma {:induction false} JoinSplit(s: string, d: char)
    ensures Join(Split(s, d), d) == s
  {
    if s != [] {
      var rest := Split(s[1..], d);
      JoinSplit(s[1..], d);
      if s[0] != d {
        var r := Split(s, d);
        assert r[1..] == rest[1..];
        if |rest| == 1 {
          assert Join(r, d) == [s[0]] + rest[0];
        } else {
          assert Join(r, d) == [s[0]] + rest[0] + [d] + Join(rest[1..], d);
        }
      }
    }
  }

  /** Splitting text that has no separator in front of it extends the first piece. */
  lemma {:induction false} SplitPrefix(p: string, s: string, d: char)
    requires d !in p
    ensures Split(p + s, d) == [p + Split(s, d)[0]] + Split(s, d)[1..]
  {
    if p != [] {
      assert (p + s)[1..] == p[1..] + s;
      SplitPrefix(p[1..], s, d);
      var rest := Split(p[1..] + s, d);
      assert rest[0] == p[1..] + Split(s, d)[0];
      assert rest[1..] == Split(s, d)[1..];
      assert Split(p + s, d) == [[p[0]] + rest[0]] + rest[1..];
      assert [p[0]] + (p[1..] + Split(s, d)[0]) == p + Split(s, d)[0];
    } else {
      var x := Split(s, d);
      assert p + s == s && p + x[0] == x[0];
      assert [x[0]] + x[1..] == x;
    }
  }

  /** Splitting a join of separator-free pieces gives the pieces back. */
  lemma {:induction false} SplitJoin(parts: seq<string>, d: char)
    requires |parts| >= 1
    requires forall k :: 0 <= k < |parts| ==> d !in parts[k]
    ensures Split(Join(parts, d), d) == parts
  {
    if |parts| == 1 {
      SplitPrefix(parts[0], "", d);
      assert parts[0] + "" == parts[0];
    } else {
      SplitJoin(parts[1..], d);
      var tail := Join(parts[1..], d);
      assert parts[0] + [d] + tail == parts[0] + ([d] + tail);
      SplitPrefix(parts[0], [d] + tail, d);
      assert ([d] + tail)[1..] == tail;
      assert Split([d] + tail, d) == [""] + parts[1..];
      assert parts[0] + "" == parts[0];
    }
  }

  /** `xs.indexOf(x)`: the first position of `x`, or -1 when it does not occur. */
  function IndexOf(xs: seq<string>, x: string): (r: int)
    ensures -1 <= r < |xs|
    ensures r == -1 <==> x !in xs
    ensures 0 <= r ==> xs[r] == x && forall j :: 0 <= j < r ==> xs[j] != x
  {
    if xs == [] then -1
    else if xs[0] == x then 0
    else
      var k := IndexOf(xs[1..], x);
      if k == -1 then -1 else k + 1
  }

  predicate OccursAt(s: string, pat: string, i: nat) {
    i + |pat| <= |s| && s[i..i + |pat|] == pat
  }

  /** `s.indexOf(pat)`: the first position where `pat` occurs in `s`, or -1. */
  function Find(s: string, pat: string): (r: int)
    ensures r == -1 || (0 <= r && OccursAt(s, pat, r))
    ensures forall j: nat :: (r == -1 || j < r) ==> !OccursAt(s, pat, j)
  {
    if OccursAt(s, pat, 0) then 0
    else if s == [] then -1
    else
      var k := Find(s[1..], pat);
      assert forall j: nat :: 1 <= j && OccursAt(s, pat, j) ==> OccursAt(s[1..], pat, j - 1) by {
        forall j: nat | 1 <= j && OccursAt(s, pat, j) ensures OccursAt(s[1..], pat, j - 1) {
          assert s[1..][j - 1..j - 1 + |pat|] == s[j..j + |pat|];
        }
      }
      if k == -1 then -1
      else
        assert s[1..][k..k + |pat|] == s[k + 1..k + 1 + |pat|];
        k + 1
  }

  /** An occurrence with none before it is the one `indexOf` finds. */
  lemma FindIs(s: string, pat: string, k: nat)
    requires OccursAt(s, pat, k)
    requires forall j: nat :: j < k ==> !OccursAt(s, pat, j)
    ensures Find(s, pat) == k
  {
  }

  /**
   * `s.replace(pat, '')` with a string pattern: only the FIRST occurrence is removed,
   * wherever it is; without an occurrence the text is unchanged.
   */
  function RemoveFirst(s: string, pat: string): (r: string)
    ensures Find(s, pat) == -1 ==> r == s
    ensures Find(s, pat) != -1 ==>
      |r| == |s| - |pat| && r == s[..Find(s, pat)] + s[Find(s, pat) + |pat|..]
  {
    var k := Find(s, pat);
    if k == -1 then s else s[..k] + s[k + |pat|..]
  }
}
