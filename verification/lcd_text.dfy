/**
  The text carried by an LCD-line frame: forty octets that the client decodes as
  UTF-8 and strips of leading and trailing spaces. Text is kept as the octets of
  its UTF-8 encoding; since 0x20 never occurs inside a multi-octet UTF-8
  sequence, stripping 0x20 octets is stripping the character ' '.
 */
module LcdText {
  import opened Bits

  /** LCD text, as the octets of its UTF-8 encoding. */
  type Text = seq<byte>

  const Space: byte := 0x20

  /** A run of `n` spaces. */
  function Spaces(n: nat): (r: Text)
    ensures |r| == n
    ensures forall k :: 0 <= k < n ==> r[k] == Space
  {
    seq(n, _ => Space)
  }

  /** The first index at or after `i` that does not hold a space, or `|s|`: where `lstrip(" ")` starts. */
  function SkipSpaces(s: Text, i: nat): (n: nat)
    requires i <= |s|
    ensures i <= n <= |s|
    ensures forall k :: i <= k < n ==> s[k] == Space
    ensures n < |s| ==> s[n] != Space
    decreases |s| - i
  {
    if i == |s| || s[i] != Space then i else SkipSpaces(s, i + 1)
  }

  /** The index just past the last non-space before `j`, or 0: where `rstrip(" ")` ends. */
  function BackSpaces(s: Text, j: nat): (n: nat)
    requires j <= |s|
    ensures n <= j
    ensures forall k :: n <= k < j ==> s[k] == Space
    ensures n > 0 ==> s[n - 1] != Space
  {
    if j == 0 || s[j - 1] != Space then j else BackSpaces(s, j - 1)
  }

  /** Neither starts nor ends with a space. */
  predicate Unpadded(t: Text) {
    |t| == 0 || (t[0] != Space && t[|t| - 1] != Space)
  }

  /** `s.lstrip(" ").rstrip(" ")`: what lies between the leading and the trailing spaces. */
  function Trim(s: Text): (t: Text)
    ensures Unpadded(t)
    ensures |t| <= |s|
  {
    var a := SkipSpaces(s, 0);
    var e := BackSpaces(s, |s|);
    if a < e then s[a..e] else []
  }

  /** A text of spaces only trims to nothing. */
  lemma TrimBlank(s: Text)
    requires forall k :: 0 <= k < |s| ==> s[k] == Space
    ensures Trim(s) == []
  {
    assert SkipSpaces(s, 0) == |s|;
  }

  /** Before an unpadded text that is not empty, the leading spaces are exactly the padding. */
  lemma LeadingPadding(a: nat, t: Text, b: nat)
    requires |t| > 0 && Unpadded(t)
    ensures SkipSpaces(Spaces(a) + t + Spaces(b), 0) == a
  {
    var s := Spaces(a) + t + Spaces(b);
    assert s[a] == t[0];
    assert forall k :: 0 <= k < a ==> s[k] == Space;
  }

  /** After an unpadded text that is not empty, the trailing spaces are exactly the padding. */
  lemma TrailingPadding(a: nat, t: Text, b: nat)
    requires |t| > 0 && Unpadded(t)
    ensures BackSpaces(Spaces(a) + t + Spaces(b), a + |t| + b) == a + |t|
  {
    var s := Spaces(a) + t + Spaces(b);
    assert s[a + |t| - 1] == t[|t| - 1];
    assert forall k :: a + |t| <= k < |s| ==> s[k] == Space;
  }

  /**
    Trimming is characterised by its result alone: any unpadded text with only
    spaces around it in `s` is what `Trim` returns.
   */
  lemma TrimUnique(a: nat, t: Text, b: nat)
    requires Unpadded(t)
    ensures Trim(Spaces(a) + t + Spaces(b)) == t
  {
    var s := Spaces(a) + t + Spaces(b);
    if |t| == 0 {
      TrimBlank(s);
    } else {
      LeadingPadding(a, t, b);
      TrailingPadding(a, t, b);
      assert s[a..a + |t|] == t;
    }
  }

  /** Stripping twice strips nothing more. */
  lemma TrimIdempotent(s: Text)
    ensures Trim(Trim(s)) == Trim(s)
  {
    var t := Trim(s);
    assert Spaces(0) + t + Spaces(0) == t;
    TrimUnique(0, t, 0);
  }

  /** A continuation octet 0x80..0xBF. */
  predicate Continuation(b: byte) {
    0x80 <= b <= 0xBF
  }

  /**
    Length of the well-formed UTF-8 sequence that starts `s`, or 0 when `s` does
    not start with one (table 3-7 of The Unicode Standard, which Python's strict
    decoder follows: no overlong forms, no surrogates, nothing above U+10FFFF).
   */
  function SequenceLength(s: Text): (n: nat)
    ensures n <= |s| && n <= 4
    ensures |s| > 0 && s[0] < 0x80 ==> n == 1
  {
    if |s| == 0 then 0
    else
      var b := s[0];
      if b < 0x80 then 1
      else if 0xC2 <= b <= 0xDF then
        if |s| >= 2 && Continuation(s[1]) then 2 else 0
      else if b == 0xE0 then
        if |s| >= 3 && 0xA0 <= s[1] <= 0xBF && Continuation(s[2]) then 3 else 0
      else if (0xE1 <= b <= 0xEC) || (0xEE <= b <= 0xEF) then
        if |s| >= 3 && Continuation(s[1]) && Continuation(s[2]) then 3 else 0
      else if b == 0xED then
        if |s| >= 3 && 0x80 <= s[1] <= 0x9F && Continuation(s[2]) then 3 else 0
      else if b == 0xF0 then
        if |s| >= 4 && 0x90 <= s[1] <= 0xBF && Continuation(s[2]) && Continuation(s[3]) then 4 else 0
      else if 0xF1 <= b <= 0xF3 then
        if |s| >= 4 && Continuation(s[1]) && Continuation(s[2]) && Continuation(s[3]) then 4 else 0
      else if b == 0xF4 then
        if |s| >= 4 && 0x80 <= s[1] <= 0x8F && Continuation(s[2]) && Continuation(s[3]) then 4 else 0
      else 0
  }

  /** `bytes.decode("utf8")` succeeds. */
  predicate ValidUtf8(s: Text)
    decreases |s|
  {
    |s| == 0 || (SequenceLength(s) > 0 && ValidUtf8(s[SequenceLength(s)..]))
  }

  /** Octets 1 .. n-1 of a sequence of length n are not ASCII. */
  lemma SequenceTail(s: Text)
    ensures forall p :: 1 <= p < SequenceLength(s) ==> s[p] >= 0x80
  {
  }

  /** A sequence is recognised from its own octets, whatever follows them. */
  lemma SequenceLocal(s: Text, u: Text)
    requires SequenceLength(s) > 0
    requires |u| >= SequenceLength(s) && u[..SequenceLength(s)] == s[..SequenceLength(s)]
    ensures SequenceLength(u) == SequenceLength(s)
  {
    var n := SequenceLength(s);
    assert u[0] == s[0];
    if n >= 2 { assert u[1] == s[1]; }
    if n >= 3 { assert u[2] == s[2]; }
    if n >= 4 { assert u[3] == s[3]; }
  }

  /** Text made of ASCII octets only is valid UTF-8. */
  lemma {:induction false} AsciiValid(s: Text)
    requires forall k :: 0 <= k < |s| ==> s[k] < 0x80
    ensures ValidUtf8(s)
    decreases |s|
  {
    if |s| > 0 {
      AsciiValid(s[1..]);
    }
  }

  /** Dropping leading spaces keeps text valid. */
  lemma {:induction false} ValidAfterLeading(s: Text, a: nat)
    requires ValidUtf8(s)
    requires a <= |s| && forall k :: 0 <= k < a ==> s[k] == Space
    ensures ValidUtf8(s[a..])
    decreases a
  {
    if a > 0 {
      assert SequenceLength(s) == 1;
      assert s[1..][a - 1..] == s[a..];
      ValidAfterLeading(s[1..], a - 1);
    }
  }

  /** Dropping trailing spaces keeps text valid. */
  lemma {:induction false} ValidBeforeTrailing(t: Text, b: nat)
    requires ValidUtf8(t + Spaces(b))
    ensures ValidUtf8(t)
    decreases |t|
  {
    if |t| > 0 {
      var u := t + Spaces(b);
      var n := SequenceLength(u);
      SequenceTail(u);
      assert b > 0 ==> u[|t|] == Space;
      assert n <= |t|;
      assert u[..n] == t[..n];
      SequenceLocal(u, t);
      assert u[n..] == t[n..] + Spaces(b);
      ValidBeforeTrailing(t[n..], b);
    }
  }

  /** Past its leading spaces, a text that is not blank is its trimmed middle followed by its trailing spaces. */
  lemma TrimSplit(s: Text)
    requires SkipSpaces(s, 0) < BackSpaces(s, |s|)
    ensures s[SkipSpaces(s, 0)..] == Trim(s) + Spaces(|s| - BackSpaces(s, |s|))
  {
    var a := SkipSpaces(s, 0);
    var e := BackSpaces(s, |s|);
    SliceSplit(s, a, e);
    BlankTail(s, e);
  }

  lemma SliceSplit(s: Text, a: nat, m: nat)
    requires a <= m <= |s|
    ensures s[a..] == s[a..m] + s[m..]
  {
  }

  lemma BlankTail(s: Text, e: nat)
    requires e <= |s| && forall k :: e <= k < |s| ==> s[k] == Space
    ensures s[e..] == Spaces(|s| - e)
  {
    var tail := s[e..];
    assert forall k :: 0 <= k < |tail| ==> tail[k] == s[e + k];
  }

  /** Stripping spaces from valid text leaves valid text. */
  lemma TrimValid(s: Text)
    requires ValidUtf8(s)
    ensures ValidUtf8(Trim(s))
  {
    var a := SkipSpaces(s, 0);
    if a < BackSpaces(s, |s|) {
      ValidAfterLeading(s, a);
      TrimSplit(s);
      ValidBeforeTrailing(Trim(s), |s| - BackSpaces(s, |s|));
    }
  }
}
