/**
 * The string operations the handlers rely on: `strings.ToLower` (for the
 * ASCII letters), `strings.HasPrefix` and `strings.TrimPrefix`.
 */
module Text {

  predicate IsUpper(c: char) {
    'A' <= c <= 'Z'
  }

  /** Lower-cases one ASCII letter and leaves every other character alone. */
  function LowerChar(c: char): char {
    if IsUpper(c) then (c as int + 32) as char else c
  }

  /** `strings.ToLower`, restricted to the ASCII letters. */
  function ToLower(s: string): (r: string)
    ensures |r| == |s|
    ensures forall i :: 0 <= i < |s| ==> !IsUpper(r[i])
    ensures forall i :: 0 <= i < |s| ==> (r[i] == s[i] <==> !IsUpper(s[i]))
    ensures forall i :: 0 <= i < |s| && IsUpper(s[i]) ==> r[i] as int == s[i] as int + 32
  {
    if s == [] then [] else [LowerChar(s[0])] + ToLower(s[1..])
  }

  /** Lower-casing twice is lower-casing once. */
  lemma {:induction false} ToLowerIdempotent(s: string)
    ensures ToLower(ToLower(s)) == ToLower(s)
  {
    var t := ToLower(s);
    var u := ToLower(t);
    assert |u| == |t|;
    forall i | 0 <= i < |t| ensures u[i] == t[i] {
      assert !IsUpper(t[i]);
    }
  }

  /** A string with no upper-case letter is its own lower-case form. */
  lemma {:induction false} ToLowerOfLower(s: string)
    requires forall i :: 0 <= i < |s| ==> !IsUpper(s[i])
    ensures ToLower(s) == s
  {
    var t := ToLower(s);
    forall i | 0 <= i < |s| ensures t[i] == s[i] {
    }
  }

  /** Two characters that are equal, or the same ASCII letter in upper and lower case. */
  predicate SameIgnoringCase(c: char, d: char) {
    || c == d
    || (IsUpper(c) && d as int == c as int + 32)
    || (IsUpper(d) && c as int == d as int + 32)
  }

  /** Two characters lower-case to the same character exactly when they are the same up to case. */
  lemma LowerCharSame(c: char, d: char)
    ensures LowerChar(c) == LowerChar(d) <==> SameIgnoringCase(c, d)
  {
    if IsUpper(c) {
      assert LowerChar(c) as int == c as int + 32;
    }
    if IsUpper(d) {
      assert LowerChar(d) as int == d as int + 32;
    }
  }

  /** Each character of `ToLower(s)` is the lower-case form of the character of `s` at that place. */
  lemma ToLowerAt(s: string, i: int)
    requires 0 <= i < |s|
    ensures ToLower(s)[i] == LowerChar(s[i])
  {
    var r := ToLower(s);
    if IsUpper(s[i]) {
      assert r[i] as int == s[i] as int + 32;
    }
  }

  /**
   * Lower-casing identifies exactly the strings that differ only in the case
   * of ASCII letters.
   */
  lemma ToLowerEqualIffSameIgnoringCase(a: string, b: string)
    ensures ToLower(a) == ToLower(b) <==>
      |a| == |b| && forall i :: 0 <= i < |a| ==> SameIgnoringCase(a[i], b[i])
  {
    var la, lb := ToLower(a), ToLower(b);
    if |a| == |b| {
      forall i | 0 <= i < |a| ensures la[i] == lb[i] <==> SameIgnoringCase(a[i], b[i]) {
        ToLowerAt(a, i);
        ToLowerAt(b, i);
        LowerCharSame(a[i], b[i]);
      }
    }
  }

  predicate HasPrefix(s: string, p: string) {
    |p| <= |s| && s[..|p|] == p
  }

  /** `strings.TrimPrefix`: drops `p` once from the front of `s` when it is there. */
  function TrimPrefix(s: string, p: string): (r: string)
    ensures HasPrefix(s, p) ==> p + r == s
    ensures !HasPrefix(s, p) ==> r == s
  {
    if HasPrefix(s, p) then s[|p|..] else s
  }

  /** Prefixing and then trimming the same prefix gives the original text back. */
  lemma TrimPrefixOfConcat(p: string, t: string)
    ensures HasPrefix(p + t, p)
    ensures TrimPrefix(p + t, p) == t
  {
    assert (p + t)[..|p|] == p;
    assert (p + t)[|p|..] == t;
  }

  /** Two strings with the same prefix are equal exactly when what follows it is. */
  lemma PrefixInjective(p: string, a: string, b: string)
    ensures p + a == p + b <==> a == b
  {
    if p + a == p + b {
      assert a == (p + a)[|p|..];
      assert b == (p + b)[|p|..];
    }
  }
}
