/**
 * The few ECMAScript string operations the viewer relies on:
 * `String.prototype.trim`, `String.prototype.includes` and an ASCII
 * `toLowerCase`. A JavaScript string is a sequence of UTF-16 code units;
 * here it is a `seq<char>` of Unicode scalar values, which agrees with it on
 * every character the white-space set below mentions.
 */
module JsString {

  /** WhiteSpace and LineTerminator code points (ECMAScript sections 12.2 and 12.3). */
  predicate IsWhiteSpace(c: char) {
    || c == '\t' || c == '\n' || c == '\r' || c == ' '
    || c as int == 0x0B || c as int == 0x0C
    || c as int == 0xA0 || c as int == 0x1680
    || (0x2000 <= c as int <= 0x200A)
    || c as int == 0x2028 || c as int == 0x2029
    || c as int == 0x202F || c as int == 0x205F
    || c as int == 0x3000 || c as int == 0xFEFF
  }

  predicate AllWhiteSpace(s: string) {
    forall i | 0 <= i < |s| :: IsWhiteSpace(s[i])
  }

  /** Drops leading white space: the result is the suffix that starts at the first non-space. */
  function TrimStart(s: string): (r: string)
    ensures |r| <= |s| && r == s[|s| - |r|..]
    ensures AllWhiteSpace(s[..|s| - |r|])
    ensures r != [] ==> !IsWhiteSpace(r[0])
  {
    if s != [] && IsWhiteSpace(s[0]) then TrimStart(s[1..]) else s
  }

  /** Drops trailing white space: the result is the prefix that ends at the last non-space. */
  function TrimEnd(s: string): (r: string)
    ensures |r| <= |s| && r == s[..|r|]
    ensures AllWhiteSpace(s[|r|..])
    ensures r != [] ==> !IsWhiteSpace(r[|r| - 1])
  {
    if s != [] && IsWhiteSpace(s[|s| - 1]) then TrimEnd(s[..|s| - 1]) else s
  }

  /** `String.prototype.trim`. */
  function Trim(s: string): (r: string)
    ensures r == [] <==> AllWhiteSpace(s)
    ensures r != [] ==> !IsWhiteSpace(r[0]) && !IsWhiteSpace(r[|r| - 1])
  {
    var t := TrimStart(s);
    var r := TrimEnd(t);
    TrimBlank(s, t, r);
    assert r != [] ==> r[0] == t[0];
    r
  }

  /**
   * The trimmed text is the window of `s` that starts where the leading
   * white space ends, and everything after that window is white space.
   */
  lemma {:induction false} TrimInside(s: string)
    ensures OccursAt(s, Trim(s), |s| - |TrimStart(s)|)
    ensures Includes(s, Trim(s))
    ensures AllWhiteSpace(s[|s| - |TrimStart(s)| + |Trim(s)|..])
  {
    var t := TrimStart(s);
    var r := TrimEnd(t);
    var k := |s| - |t|;
    assert Trim(s) == r;
    assert t == s[k..] && r == t[..|r|];
    WindowOfSuffix(s, t, r, k);
    assert k <= |s| && OccursAt(s, r, k);
    assert s[k + |r|..] == t[|r|..];
  }

  /** A prefix of a suffix of `s` is a window of `s`. */
  lemma {:induction false} WindowOfSuffix(s: string, t: string, r: string, k: nat)
    requires k <= |s| && t == s[k..] && |r| <= |t| && r == t[..|r|]
    ensures OccursAt(s, r, k)
  {
    assert r == s[k..k + |r|];
  }

  lemma {:induction false} TrimBlank(s: string, t: string, r: string)
    requires t == TrimStart(s) && r == TrimEnd(t)
    ensures r == [] <==> AllWhiteSpace(s)
  {
    TrimStartBlank(s);
    TrimEndBlank(t);
    if t != [] {
      assert !IsWhiteSpace(t[0]);
    }
  }

  lemma {:induction false} TrimStartBlank(s: string)
    ensures TrimStart(s) == [] <==> AllWhiteSpace(s)
  {
    if s != [] && IsWhiteSpace(s[0]) {
      TrimStartBlank(s[1..]);
      assert AllWhiteSpace(s[1..]) ==> AllWhiteSpace(s) by {
        if AllWhiteSpace(s[1..]) {
          forall i | 0 < i < |s| ensures IsWhiteSpace(s[i]) {
            assert s[i] == s[1..][i - 1];
          }
        }
      }
    }
  }

  lemma {:induction false} TrimEndBlank(s: string)
    ensures TrimEnd(s) == [] <==> AllWhiteSpace(s)
  {
    if s != [] && IsWhiteSpace(s[|s| - 1]) {
      var p := s[..|s| - 1];
      TrimEndBlank(p);
      assert AllWhiteSpace(p) ==> AllWhiteSpace(s) by {
        if AllWhiteSpace(p) {
          forall i | 0 <= i < |p| ensures IsWhiteSpace(s[i]) {
            assert s[i] == p[i];
          }
        }
      }
    }
  }

  /** Trimming twice removes nothing more: a trimmed name is its own trim. */
  lemma {:induction false} TrimIdempotent(s: string)
    ensures Trim(Trim(s)) == Trim(s)
  {
    var r := Trim(s);
    if r != [] {
      assert TrimStart(r) == r;
      assert TrimEnd(r) == r;
    }
  }

  /**
   * `hay.includes(needle)`: some window of `hay` equals `needle`. The empty
   * string is in every string, and every string is in itself.
   */
  predicate Includes(hay: string, needle: string): (r: bool)
    ensures r ==> |needle| <= |hay|
    ensures needle == [] ==> r
    ensures |needle| <= |hay| && hay[..|needle|] == needle ==> r
    ensures |needle| <= |hay| && hay[|hay| - |needle|..] == needle ==> r
  {
    assert |needle| <= |hay| ==>
      (hay[..|needle|] == needle ==> OccursAt(hay, needle, 0)) &&
      (hay[|hay| - |needle|..] == needle ==> OccursAt(hay, needle, |hay| - |needle|));
    exists i | 0 <= i <= |hay| :: OccursAt(hay, needle, i)
  }

  predicate OccursAt(hay: string, needle: string, i: nat) {
    i + |needle| <= |hay| && hay[i..i + |needle|] == needle
  }

  /** `toLowerCase` restricted to ASCII letters. */
  function LowerChar(c: char): char {
    if 'A' <= c <= 'Z' then (c as int + 32) as char else c
  }

  /**
   * `toLowerCase`: no upper-case ASCII letter is left, and every other
   * character stays as it is.
   */
  function Lower(s: string): (r: string)
    ensures |r| == |s|
    ensures forall i | 0 <= i < |r| :: !('A' <= r[i] <= 'Z')
    ensures forall i | 0 <= i < |s| && !('A' <= s[i] <= 'Z') :: r[i] == s[i]
    ensures forall i | 0 <= i < |s| && 'A' <= s[i] <= 'Z' :: r[i] as int == s[i] as int + 32
  {
    seq(|s|, i requires 0 <= i < |s| => LowerChar(s[i]))
  }

  /** Lower-casing twice is lower-casing once. */
  lemma {:induction false} LowerIdempotent(s: string)
    ensures Lower(Lower(s)) == Lower(s)
  {
    var r := Lower(s);
    assert forall i | 0 <= i < |r| :: Lower(r)[i] == r[i];
  }

  /**
   * `a.localeCompare(b) <= 0`, with the locale's collation replaced by
   * lexicographic order on characters.
   */
  predicate StrLe(a: string, b: string): (r: bool)
    ensures |a| <= |b| && a == b[..|a|] ==> r
    ensures a != [] && b != [] && a[0] != b[0] ==> (r <==> a[0] < b[0])
  {
    if a != [] && b != [] && a[0] == b[0] then
      assert |a| <= |b| && a == b[..|a|] ==> a[1..] == b[1..][..|a[1..]|];
      StrLe(a[1..], b[1..])
    else a == [] || (b != [] && a[0] < b[0])
  }

  lemma {:induction false} StrLeReflexive(a: string)
    ensures StrLe(a, a)
  {
    if a != [] {
      StrLeReflexive(a[1..]);
    }
  }

  /** Any two strings compare one way or the other. */
  lemma {:induction false} StrLeTotal(a: string, b: string)
    ensures StrLe(a, b) || StrLe(b, a)
  {
    if a != [] && b != [] && a[0] == b[0] {
      StrLeTotal(a[1..], b[1..]);
    }
  }

  lemma {:induction false} StrLeTransitive(a: string, b: string, c: string)
    requires StrLe(a, b) && StrLe(b, c)
    ensures StrLe(a, c)
  {
    if a != [] && a[0] == b[0] && b[0] == c[0] {
      StrLeTransitive(a[1..], b[1..], c[1..]);
    }
  }

  lemma {:induction false} StrLeAntisymmetric(a: string, b: string)
    requires StrLe(a, b) && StrLe(b, a)
    ensures a == b
  {
    if a != [] {
      StrLeAntisymmetric(a[1..], b[1..]);
      assert a == [a[0]] + a[1..] && b == [b[0]] + b[1..];
    }
  }
}
