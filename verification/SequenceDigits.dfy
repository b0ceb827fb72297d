/**
 The sequence of an event inside its encoding: twenty decimal digits that `finalize` writes in place and
 `decode_sequence` reads back (`wokcore-diagnostics/src/event.rs`).
 */
module SequenceDigits {
  import opened Prelude

  const SEQUENCE_DIGITS: nat := 20
  const ZERO: byte := 48

  /** The last digits of a number, most significant first. */
  function Digits(value: nat, width: nat): (digits: Bytes)
    ensures |digits| == width
    decreases width
  {
    if width == 0 then [] else Digits(value / 10, width - 1) + [ZERO + value % 10]
  }

  predicate AllDigits(text: Bytes) {
    forall i :: 0 <= i < |text| ==> ZERO <= text[i] <= ZERO + 9
  }

  function Number(text: Bytes): int {
    if text == [] then 0 else 10 * Number(text[..|text| - 1]) + (text[|text| - 1] - ZERO) as int
  }

  function Ten(n: nat): nat {
    if n == 0 then 1 else 10 * Ten(n - 1)
  }

  lemma {:induction false} NumberOfDigits(value: nat, width: nat)
    requires value < Ten(width)
    ensures AllDigits(Digits(value, width)) && Number(Digits(value, width)) == value
    decreases width
  {
    if width > 0 {
      NumberOfDigits(value / 10, width - 1);
      assert Digits(value, width)[..width - 1] == Digits(value / 10, width - 1);
    }
  }

  lemma {:induction false} DigitsOfNumber(text: Bytes)
    requires AllDigits(text)
    ensures 0 <= Number(text) < Ten(|text|) && Digits(Number(text), |text|) == text
  {
    if text != [] {
      var n := |text| - 1;
      DigitsOfNumber(text[..n]);
      assert Number(text) / 10 == Number(text[..n]) && Number(text) % 10 == (text[n] - ZERO) as int;
      assert text == text[..n] + [text[n]];
    }
  }

  lemma FourMore(n: nat)
    ensures Ten(n + 4) == 10_000 * Ten(n)
  {
    assert Ten(n + 2) == 100 * Ten(n);
    assert Ten(n + 4) == 100 * Ten(n + 2);
  }

  lemma SequencesFit()
    ensures Ten(SEQUENCE_DIGITS) > U64_MAX
  {
    FourMore(0);
    FourMore(4);
    FourMore(8);
    FourMore(12);
    FourMore(16);
    assert Ten(0) == 1;
  }

  function DecodeSequence(text: Bytes): Option<nat> {
    if |text| != SEQUENCE_DIGITS || !AllDigits(text) then None
    else
      DigitsOfNumber(text);
      var sequence := Number(text);
      if sequence > U64_MAX || sequence == 0 || Digits(sequence, SEQUENCE_DIGITS) != text then None else Some(sequence)
  }

  /** A text decodes to a sequence exactly when it is that sequence's twenty digits. */
  lemma DecodesExactly(text: Bytes, sequence: nat)
    ensures DecodeSequence(text) == Some(sequence) <==>
            0 < sequence <= U64_MAX && text == Digits(sequence, SEQUENCE_DIGITS)
  {
    SequencesFit();
    if 0 < sequence <= U64_MAX && text == Digits(sequence, SEQUENCE_DIGITS) {
      NumberOfDigits(sequence, SEQUENCE_DIGITS);
    }
  }

  /** Write the digits into the encoding, last digit first; nothing else of it changes. Zero is refused. */
  method Finalize(encoded: array<byte>, offset: nat, sequence: nat) returns (ok: bool)
    requires offset + SEQUENCE_DIGITS <= encoded.Length && sequence <= U64_MAX
    modifies encoded
    ensures ok <==> sequence != 0
    ensures ok ==>
              encoded[..] == old(encoded[..offset]) + Digits(sequence, SEQUENCE_DIGITS)
                             + old(encoded[offset + SEQUENCE_DIGITS..])
    ensures ok ==> DecodeSequence(encoded[offset..offset + SEQUENCE_DIGITS]) == Some(sequence)
    ensures !ok ==> encoded[..] == old(encoded[..])
  {
    if sequence == 0 {
      return false;
    }
    hide DecodeSequence, Digits, Ten, Spliced;
    var remaining, k: nat := sequence, SEQUENCE_DIGITS;
    ghost var digits, before := Digits(sequence, SEQUENCE_DIGITS), encoded[..];
    SequencesFit();
    SpliceStarts(before, offset, digits);
    while k > 0
      invariant 0 <= remaining < Ten(k) && k <= SEQUENCE_DIGITS && digits[..k] == Digits(remaining, k)
      invariant encoded[..] == Spliced(before, offset, k, digits)
    {
      LastDigit(digits, remaining, k);
      SpliceStep(before, offset, k, digits);
      k := k - 1;
      encoded[offset + k] := ZERO + remaining % 10;
      remaining := remaining / 10;
    }
    NoDigits();
    SpliceEnds(before, offset, digits);
    DecodesExactly(digits, sequence);
    ok := remaining == 0;
  }

  /** The encoding with the digits from position `k` on written. */
  ghost function Spliced(before: Bytes, offset: nat, k: nat, digits: Bytes): Bytes
    requires |digits| == SEQUENCE_DIGITS && k <= SEQUENCE_DIGITS && offset + SEQUENCE_DIGITS <= |before|
  {
    before[..offset + k] + digits[k..] + before[offset + SEQUENCE_DIGITS..]
  }

  lemma SpliceStarts(before: Bytes, offset: nat, digits: Bytes)
    requires |digits| == SEQUENCE_DIGITS && offset + SEQUENCE_DIGITS <= |before|
    ensures Spliced(before, offset, SEQUENCE_DIGITS, digits) == before && digits[..SEQUENCE_DIGITS] == digits
  {
  }

  lemma SpliceStep(before: Bytes, offset: nat, k: nat, digits: Bytes)
    requires |digits| == SEQUENCE_DIGITS && 0 < k <= SEQUENCE_DIGITS && offset + SEQUENCE_DIGITS <= |before|
    ensures |Spliced(before, offset, k, digits)| == |before|
    ensures Spliced(before, offset, k, digits)[offset + k - 1 := digits[k - 1]]
            == Spliced(before, offset, k - 1, digits)
  {
  }

  lemma SpliceEnds(before: Bytes, offset: nat, digits: Bytes)
    requires |digits| == SEQUENCE_DIGITS && offset + SEQUENCE_DIGITS <= |before|
    ensures var after := Spliced(before, offset, 0, digits);
            && after == before[..offset] + digits + before[offset + SEQUENCE_DIGITS..]
            && |after| == |before| && after[offset..offset + SEQUENCE_DIGITS] == digits
  {
  }

  lemma NoDigits()
    ensures Ten(0) == 1
  {
  }

  lemma LastDigit(digits: Bytes, remaining: nat, k: nat)
    requires 0 < k <= |digits| && digits[..k] == Digits(remaining, k) && remaining < Ten(k)
    ensures digits[k - 1] == ZERO + remaining % 10 && digits[..k - 1] == Digits(remaining / 10, k - 1)
    ensures remaining / 10 < Ten(k - 1)
  {
    assert digits[k - 1] == digits[..k][k - 1];
    assert digits[..k - 1] == digits[..k][..k - 1];
  }

  /** The digits of a smaller number come first in byte order. */
  lemma {:induction false} DigitsAreOrdered(a: nat, b: nat, width: nat)
    requires a < b < Ten(width)
    ensures exists k :: 0 <= k < width && Digits(a, width)[..k] == Digits(b, width)[..k]
                        && Digits(a, width)[k] < Digits(b, width)[k]
    decreases width
  {
    var n := width - 1;
    var x, y := Digits(a / 10, n), Digits(b / 10, n);
    assert Digits(a, width) == x + [ZERO + a % 10] && Digits(b, width) == y + [ZERO + b % 10];
    if a / 10 < b / 10 {
      DigitsAreOrdered(a / 10, b / 10, n);
      var k :| 0 <= k < n && x[..k] == y[..k] && x[k] < y[k];
      assert Digits(a, width)[..k] == x[..k] && Digits(b, width)[..k] == y[..k];
      assert Digits(a, width)[k] < Digits(b, width)[k];
    } else {
      assert x == y && Digits(a, width)[..n] == x && Digits(b, width)[..n] == y;
      assert Digits(a, width)[n] < Digits(b, width)[n];
    }
  }
}
