/** The lookup key shared by both tables of the store: a caller's name is
    lower-cased and then trimmed, `name.toLowerCase().trim()`.

    Lower-casing is modelled on the ASCII letters A-Z; every other character
    is kept as it is. Trimming removes the characters that ECMAScript's
    `String.prototype.trim` removes: the WhiteSpace and LineTerminator code
    points, at both ends. */
module Normalize {

  /** The WhiteSpace and LineTerminator code points of ECMAScript. */
  predicate IsSpace(c: char) {
    c == '\t' || c == '\n' || c == '\U{000B}' || c == '\U{000C}' || c == '\r'
    || c == ' ' || c == '\U{00A0}' || c == '\U{1680}'
    || ('\U{2000}' <= c <= '\U{200A}')
    || c == '\U{2028}' || c == '\U{2029}' || c == '\U{202F}' || c == '\U{205F}'
    || c == '\U{3000}' || c == '\U{FEFF}'
  }

  predicate AllSpace(s: string) {
    forall i :: 0 <= i < |s| ==> IsSpace(s[i])
  }

  function LowerChar(c: char): char {
    if 'A' <= c <= 'Z' then (c as int + 32) as char else c
  }

  /** `toLowerCase`, character by character. */
  function ToLower(s: string): (r: string)
    ensures |r| == |s|
  {
    seq(|s|, i requires 0 <= i < |s| => LowerChar(s[i]))
  }

  /** Each upper-case letter becomes its own lower-case letter, so none is
      left, and every other character is kept where it was. */
  lemma ToLowerLowersLettersOnly(s: string)
    ensures forall i :: 0 <= i < |s| ==> !('A' <= ToLower(s)[i] <= 'Z')
    ensures forall i :: 0 <= i < |s| ==> ToLower(s)[i] == s[i] || 'A' <= s[i] <= 'Z'
    ensures forall i :: 0 <= i < |s| && 'A' <= s[i] <= 'Z' ==>
              ToLower(s)[i] == "abcdefghijklmnopqrstuvwxyz"[s[i] as int - 'A' as int]
  {
    var alpha := "abcdefghijklmnopqrstuvwxyz";
    assert forall j :: 0 <= j < 26 ==> alpha[j] as int == 'a' as int + j;
  }

  function TrimStart(s: string): string {
    if s != [] && IsSpace(s[0]) then TrimStart(s[1..]) else s
  }

  function TrimEnd(s: string): string {
    if s != [] && IsSpace(s[|s| - 1]) then TrimEnd(s[..|s| - 1]) else s
  }

  /** `trim`: never longer than its input, and neither starts nor ends
      with a space. */
  function Trim(s: string): (r: string)
    ensures |r| <= |s|
    ensures r != [] ==> !IsSpace(r[0]) && !IsSpace(r[|r| - 1])
  {
    TrimStartDrops(s);
    TrimEndDrops(TrimStart(s));
    TrimEnd(TrimStart(s))
  }

  /** The normalised name, `s.toLowerCase().trim()`: never longer than the
      name, and neither starts nor ends with a space. */
  function Key(s: string): (r: string)
    ensures |r| <= |s|
    ensures r != [] ==> !IsSpace(r[0]) && !IsSpace(r[|r| - 1])
  {
    Trim(ToLower(s))
  }

  // ---------------------------------------------------------------------
  // What trimming removes

  /** TrimStart drops a run of spaces from the front and nothing else. */
  lemma {:induction false} TrimStartDrops(s: string)
    ensures |TrimStart(s)| <= |s|
    ensures TrimStart(s) == s[|s| - |TrimStart(s)|..]
    ensures AllSpace(s[..|s| - |TrimStart(s)|])
    ensures TrimStart(s) != [] ==> !IsSpace(TrimStart(s)[0])
  {
    if s != [] && IsSpace(s[0]) {
      TrimStartDrops(s[1..]);
      var n := |s| - |TrimStart(s)|;
      assert s[1..][..n - 1] == s[1..n];
      assert forall i :: 1 <= i < n ==> s[..n][i] == s[1..n][i - 1];
    }
  }

  /** TrimEnd drops a run of spaces from the back and nothing else. */
  lemma {:induction false} TrimEndDrops(s: string)
    ensures |TrimEnd(s)| <= |s|
    ensures TrimEnd(s) == s[..|TrimEnd(s)|]
    ensures AllSpace(s[|TrimEnd(s)|..])
    ensures TrimEnd(s) != [] ==> !IsSpace(TrimEnd(s)[|TrimEnd(s)| - 1])
  {
    if s != [] && IsSpace(s[|s| - 1]) {
      var p := s[..|s| - 1];
      TrimEndDrops(p);
      var n := |TrimEnd(s)|;
      assert p[..n] == s[..n];
      assert s[n..] == p[n..] + [s[|s| - 1]];
      AllSpaceConcat(p[n..], [s[|s| - 1]]);
    }
  }

  lemma AllSpaceConcat(a: string, b: string)
    requires AllSpace(a) && AllSpace(b)
    ensures AllSpace(a + b)
  {
    forall k | 0 <= k < |a + b| ensures IsSpace((a + b)[k]) {
      if k >= |a| { assert (a + b)[k] == b[k - |a|]; }
    }
  }

  /** The result of `trim` is a slice of its input with only spaces cut off
      either side, and it neither starts nor ends with a space. */
  lemma TrimIsInnerSlice(s: string)
    ensures exists i, j :: 0 <= i <= j <= |s| && Trim(s) == s[i..j]
                           && AllSpace(s[..i]) && AllSpace(s[j..])
    ensures Trim(s) != [] ==> !IsSpace(Trim(s)[0]) && !IsSpace(Trim(s)[|Trim(s)| - 1])
  {
    var t := TrimStart(s);
    TrimStartDrops(s);
    TrimEndDrops(t);
    var i := |s| - |t|;
    var j := i + |Trim(s)|;
    assert Trim(s) == s[i..j];
    assert s[j..] == t[|Trim(s)|..];
  }

  /** `trim` removes everything exactly when the input is all spaces. */
  lemma {:induction false} TrimEmptyIffAllSpace(s: string)
    ensures Trim(s) == [] <==> AllSpace(s)
  {
    var t := TrimStart(s);
    TrimStartDrops(s);
    TrimEndDrops(t);
    var i := |s| - |t|;
    if Trim(s) == [] {
      assert t == t[0..];
      assert s == s[..i] + t;
      AllSpaceConcat(s[..i], t);
    } else {
      assert t[0] == s[i];
    }
  }

  /** Applying `trim` twice is the same as applying it once. */
  lemma TrimIdempotent(s: string)
    ensures Trim(Trim(s)) == Trim(s)
  {
    var t := TrimStart(s);
    var u := TrimEnd(t);
    TrimStartDrops(s);
    TrimEndDrops(t);
    if u != [] {
      assert u[0] == t[0];
      assert TrimStart(u) == u;
    }
  }

  // ---------------------------------------------------------------------
  // Lower-casing and trimming commute

  lemma {:induction false} LowerTrimStart(s: string)
    ensures ToLower(TrimStart(s)) == TrimStart(ToLower(s))
  {
    if s != [] {
      assert ToLower(s)[1..] == ToLower(s[1..]);
      if IsSpace(s[0]) {
        LowerTrimStart(s[1..]);
      }
    }
  }

  lemma {:induction false} LowerTrimEnd(s: string)
    ensures ToLower(TrimEnd(s)) == TrimEnd(ToLower(s))
  {
    if s != [] {
      assert ToLower(s)[..|s| - 1] == ToLower(s[..|s| - 1]);
      if IsSpace(s[|s| - 1]) {
        LowerTrimEnd(s[..|s| - 1]);
      }
    }
  }

  /** The key is the lower-cased trimmed name: lower-casing before or after
      trimming gives the same string. */
  lemma KeyIsLoweredTrim(s: string)
    ensures Key(s) == ToLower(Trim(s))
    ensures |Key(s)| == |Trim(s)|
  {
    LowerTrimStart(s);
    LowerTrimEnd(TrimStart(s));
  }

  /** The display name a table stores is `name.trim()`; normalising it again
      gives the key the entry was stored under. */
  lemma KeyOfTrimmed(s: string)
    ensures Key(Trim(s)) == Key(s)
  {
    KeyIsLoweredTrim(s);
    KeyIsLoweredTrim(Trim(s));
    TrimIdempotent(s);
  }

  /** The key is empty exactly when the name is empty after trimming. */
  lemma KeyEmptyIffBlank(s: string)
    ensures Key(s) == [] <==> Trim(s) == []
    ensures Key(s) == [] <==> AllSpace(s)
  {
    KeyIsLoweredTrim(s);
    TrimEmptyIffAllSpace(s);
  }

  // ---------------------------------------------------------------------
  // Names that differ only by case or surrounding spaces

  lemma {:induction false} TrimStartAfterSpaces(w: string, s: string)
    requires AllSpace(w)
    ensures TrimStart(w + s) == TrimStart(s)
  {
    if w != [] {
      assert (w + s)[1..] == w[1..] + s;
      TrimStartAfterSpaces(w[1..], s);
    } else {
      assert w + s == s;
    }
  }

  lemma {:induction false} TrimEndBeforeSpaces(s: string, w: string)
    requires AllSpace(w)
    ensures TrimEnd(s + w) == TrimEnd(s)
  {
    if w != [] {
      assert (s + w)[..|s + w| - 1] == s + w[..|w| - 1];
      TrimEndBeforeSpaces(s, w[..|w| - 1]);
    } else {
      assert s + w == s;
    }
  }

  lemma {:induction false} TrimStartKeepsTail(s: string, w: string)
    requires TrimStart(s) != []
    ensures TrimStart(s + w) == TrimStart(s) + w
  {
    if IsSpace(s[0]) {
      assert (s + w)[1..] == s[1..] + w;
      TrimStartKeepsTail(s[1..], w);
    }
  }

  /** Surrounding spaces never change the key. */
  lemma KeyIgnoresPadding(w1: string, s: string, w2: string)
    requires AllSpace(w1) && AllSpace(w2)
    ensures Key(w1 + s + w2) == Key(s)
  {
    assert w1 + s + w2 == w1 + (s + w2);
    TrimStartAfterSpaces(w1, s + w2);
    if TrimStart(s) == [] {
      TrimStartDrops(s);
      assert s[..|s|] == s;
      AllSpaceConcat(s, w2);
      TrimStartAfterSpaces(s + w2, []);
      assert s + w2 + [] == s + w2;
    } else {
      TrimStartKeepsTail(s, w2);
      TrimEndBeforeSpaces(TrimStart(s), w2);
    }
    assert Trim(w1 + s + w2) == Trim(s);
    KeyIsLoweredTrim(w1 + s + w2);
    KeyIsLoweredTrim(s);
  }

  /** Case never changes the key: names equal up to letter case share it. */
  lemma KeyIgnoresCase(a: string, b: string)
    requires |a| == |b|
    requires forall i :: 0 <= i < |a| ==> LowerChar(a[i]) == LowerChar(b[i])
    ensures Key(a) == Key(b)
  {
    assert ToLower(a) == ToLower(b);
  }
}
