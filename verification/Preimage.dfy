/** The bytes that a wallet signs: method and encoded arguments behind a length prefix (EIP-191, version 0x45). */
module Preimage {
  import opened Decimal

  /** Byte strings, one character per byte. */
  type Bytes = string

  const PREFIX: Bytes := "\U{19}Ethereum Signed Message:\n"

  function Preimage(message: Bytes): Bytes {
    PREFIX + Digits(|message|) + message
  }

  /** The signed payload: the method followed by the encoded argument list. */
  function Assemble<T>(method_: Bytes, encode: T -> Bytes, args: T): Bytes {
    method_ + encode(args)
  }

  /** The digits of a length plus the length itself grow strictly, so their total determines the length. */
  lemma LengthDetermined(m: nat, n: nat)
    requires |Digits(m)| + m == |Digits(n)| + n
    ensures m == n
  {
    if m < n {
      DigitsGrow(m, n);
    } else {
      DigitsGrow(n, m);
    }
  }

  /** The prefixed bytes determine the message, even one that begins with digits. */
  lemma PreimageInjective(a: Bytes, b: Bytes)
    requires Preimage(a) == Preimage(b)
    ensures a == b
  {
    LengthDetermined(|a|, |b|);
    var k := |PREFIX| + |Digits(|a|)|;
    assert Preimage(a)[k..] == a && Preimage(b)[k..] == b;
  }

  /** The position of the first bracket, or the length if there is none. */
  function FirstBracket(s: Bytes): nat {
    if s == [] || s[0] == '[' then 0 else 1 + FirstBracket(s[1..])
  }

  lemma {:induction false} BracketFollowsMethod(m: Bytes, x: Bytes)
    requires '[' !in m && x != [] && x[0] == '['
    ensures FirstBracket(m + x) == |m|
    decreases |m|
  {
    if m == [] {
      assert m + x == x;
    } else {
      assert (m + x)[1..] == m[1..] + x;
      BracketFollowsMethod(m[1..], x);
    }
  }

  /** A bracket-free method name ends where the encoded argument array begins. */
  lemma MethodEndsAtBracket(m: Bytes, x: Bytes, n: Bytes, y: Bytes)
    requires '[' !in m && '[' !in n && x != [] && x[0] == '[' && y != [] && y[0] == '['
    requires m + x == n + y
    ensures m == n && x == y
  {
    BracketFollowsMethod(m, x);
    BracketFollowsMethod(n, y);
    assert (m + x)[..|m|] == m && (n + y)[..|n|] == n && (m + x)[|m|..] == x && (n + y)[|n|..] == y;
  }

  /** What is signed determines the method and the arguments, given an injective encoder of arrays. */
  lemma SignedBytesDetermineRequest<T(!new)>(m: Bytes, a: T, n: Bytes, b: T, encode: T -> Bytes)
    requires '[' !in m && '[' !in n
    requires forall x :: encode(x) != [] && encode(x)[0] == '['
    requires forall x, y :: encode(x) == encode(y) ==> x == y
    requires Preimage(Assemble(m, encode, a)) == Preimage(Assemble(n, encode, b))
    ensures m == n && a == b
  {
    PreimageInjective(Assemble(m, encode, a), Assemble(n, encode, b));
    MethodEndsAtBracket(m, encode(a), n, encode(b));
  }

  /**
   * The layout of the signed bytes: the marker byte 0x19 and the text of EIP-191, then nothing but digits that spell
   * the exact length of the message, then the message.
   */
  lemma PreimageSpellsLength(message: Bytes)
    ensures var p := Preimage(message);
            var k := |p| - |message|;
            && 26 < k && p[..26] == "\U{19}Ethereum Signed Message:\n" && p[k..] == message
            && (forall i :: 26 <= i < k ==> '0' <= p[i] <= '9')
            && Value(p[26..k]) == |message|
  {
    var p, digits := Preimage(message), Digits(|message|);
    var k := |p| - |message|;
    DigitsGrow(0, |message|);
    DigitsAreDigits(|message|);
    DigitsRoundTrip(|message|);
    assert p[26..k] == digits && p[k..] == message;
    forall i | 26 <= i < k ensures '0' <= p[i] <= '9' {
      assert p[i] == digits[i - 26];
    }
    assert p[..26] == PREFIX;
  }
}
