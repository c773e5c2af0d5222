/**
 * The verification code printed on a certificate: the marker `x` followed
 * by the lowercase hexadecimal MD5 digest of `name:position:timestamp`.
 * The digest itself is a parameter: only its shape (32 lowercase hex
 * characters) is assumed.
 */
module CertHash {
  import opened Text

  predicate IsHexChar(c: char) {
    IsDigit(c) || 'a' <= c <= 'f'
  }

  predicate IsLowerHex(s: string) {
    forall i :: 0 <= i < |s| ==> IsHexChar(s[i])
  }

  /** What `hexdigest()` of a 128-bit digest looks like. */
  type HexDigest = s: string | |s| == 32 && IsLowerHex(s)
    witness "00000000000000000000000000000000"

  /** `hashlib.md5(message.encode()).hexdigest()`, left abstract. */
  type Digest = string -> HexDigest

  const Marker: char := 'x'
  const Separator: char := ':'

  /** The canonical message `f"{name}:{position}:{timestamp}"` for an integer position. */
  function Message(name: string, position: nat, timestamp: string): (m: string)
    ensures |m| == |name| + |NatToString(position)| + |timestamp| + 2
    ensures m[..|name|] == name && m[|m| - |timestamp|..] == timestamp
  {
    name + [Separator] + NatToString(position) + [Separator] + timestamp
  }

  /** A well-formed code: the marker, then 32 lowercase hex characters. */
  predicate IsVerificationCode(code: string) {
    |code| == 33 && code[0] == Marker && IsLowerHex(code[1..])
  }

  /** `generate_certificate_hash(full_name, position, timestamp)`. */
  function CertificateHash(digest: Digest, name: string, position: nat, timestamp: string): (code: string)
    ensures IsVerificationCode(code)
    ensures code[1..] == digest(Message(name, position, timestamp))
  {
    [Marker] + digest(Message(name, position, timestamp))
  }

  /** The index of the first `c` in `s`, or `|s|` when there is none. */
  function IndexOf(s: string, c: char): (k: nat)
    ensures k <= |s|
  {
    if |s| == 0 || s[0] == c then 0 else 1 + IndexOf(s[1..], c)
  }

  lemma {:induction false} IndexOfFirstSeparator(a: string, b: string)
    requires Separator !in a
    ensures IndexOf(a + [Separator] + b, Separator) == |a|
  {
    if |a| > 0 {
      assert (a + [Separator] + b)[1..] == a[1..] + [Separator] + b;
      assert a[0] != Separator;
      IndexOfFirstSeparator(a[1..], b);
    }
  }

  /** A name without `:` ends where the message's first separator is. */
  lemma MessageNameEndsAtFirstSeparator(name: string, position: nat, timestamp: string)
    requires Separator !in name
    ensures IndexOf(Message(name, position, timestamp), Separator) == |name|
  {
    var rest := NatToString(position) + [Separator] + timestamp;
    assert Message(name, position, timestamp) == name + [Separator] + rest;
    IndexOfFirstSeparator(name, rest);
  }

  /** A separator-free head is recovered by cutting at the first separator. */
  lemma CutAtFirstSeparator(a: string, b: string, c: string, d: string)
    requires Separator !in a && Separator !in c
    requires a + [Separator] + b == c + [Separator] + d
    ensures a == c && b == d
  {
    var m := a + [Separator] + b;
    IndexOfFirstSeparator(a, b);
    IndexOfFirstSeparator(c, d);
    assert a == m[..|a|] && b == m[|a| + 1..];
    assert c == m[..|c|] && d == m[|c| + 1..];
  }

  /**
   * For names without a `:`, the message determines name, position and
   * timestamp: distinct certificates never share a message.
   */
  lemma MessageInjective(n1: string, p1: nat, t1: string, n2: string, p2: nat, t2: string)
    requires Separator !in n1 && Separator !in n2
    requires Message(n1, p1, t1) == Message(n2, p2, t2)
    ensures n1 == n2 && p1 == p2 && t1 == t2
  {
    var d1, d2 := NatToString(p1), NatToString(p2);
    assert Message(n1, p1, t1) == n1 + [Separator] + (d1 + [Separator] + t1);
    assert Message(n2, p2, t2) == n2 + [Separator] + (d2 + [Separator] + t2);
    CutAtFirstSeparator(n1, d1 + [Separator] + t1, n2, d2 + [Separator] + t2);
    assert Separator !in d1 && Separator !in d2 by {
      assert !IsDigit(Separator);
    }
    CutAtFirstSeparator(d1, t1, d2, t2);
    NatToStringInjective(p1, p2);
  }

  /** With a `:` inside the name the layout is ambiguous: two different certificates, one message. */
  lemma MessageAmbiguousWithSeparatorInName()
    ensures Message("a:1", 2, "t") == Message("a", 1, "2:t") == "a:1:2:t"
  {
    assert NatToString(2) == "2";
    assert NatToString(1) == "1";
  }
}
