/** Vocabulary shared by the models: optional values, outcomes, bytes and machine limits. */
module Prelude {

  datatype Option<+T> = None | Some(value: T)

  datatype Result<+T, +E> = Ok(value: T) | Err(error: E)

  type byte = b: int | 0 <= b < 256

  type Bytes = seq<byte>

  const U64_MAX: nat := 0xFFFF_FFFF_FFFF_FFFF
  const U32_MAX: nat := 0xFFFF_FFFF
  const I64_MAX: nat := 0x7FFF_FFFF_FFFF_FFFF

  const NEWLINE: byte := 10

  /** The largest encoded event, and the size of the buffers of an export. */
  const MAX_PREPARED_EVENT_BYTES: nat := 16_384
  const EXPORT_BUFFER_BYTES: nat := 16_384

  /** The bytes of an ASCII text. */
  function Ascii(text: string): (bytes: Bytes)
    ensures |bytes| == |text|
  {
    if text == "" then [] else [text[0] as int % 256] + Ascii(text[1..])
  }

  /** Rust's `saturating_add` on `u64`. */
  function SaturatingAdd(a: nat, b: nat): (r: nat)
    ensures a + b <= U64_MAX ==> r == a + b
    ensures a <= U64_MAX ==> a <= r <= U64_MAX
  {
    if a + b <= U64_MAX then a + b else U64_MAX
  }

  /** A suffix seen as the part before one element, the element and the part after it. */
  lemma SplitAround<T>(s: seq<T>, at: nat, k: nat)
    requires at <= k < |s|
    ensures s[at..] == s[at..k] + [s[k]] + s[k + 1..]
  {
  }

  lemma Regroup<T>(a: seq<T>, b: seq<T>, c: seq<T>)
    ensures (a + b) + c == a + (b + c)
  {
  }

  lemma TakeDrop<T>(s: seq<T>, k: nat)
    requires k <= |s|
    ensures s == s[..k] + s[k..]
  {
  }

  lemma SliceJoin<T>(s: seq<T>, from: nat, mid: nat, to: nat)
    requires from <= mid <= to <= |s|
    ensures s[from..mid] + s[mid..to] == s[from..to]
  {
  }

  /** Whether the environment fails or interrupts at this point; never when it is calm. */
  method Disturbed(calm: bool) returns (disturbed: bool)
    ensures calm ==> !disturbed
  {
    disturbed := *;
    if calm {
      disturbed := false;
    }
  }
}
