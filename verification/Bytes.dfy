/**
  Machine integers and small result types shared by the models.

  Every width matters somewhere in the font code, so the C types are subset types of `int`
  and each wrap-around or truncation is written out where the C code performs it.
 */
module Bytes {
  type Byte = x: int | 0 <= x < 0x100
  type Ushort = x: int | 0 <= x < 0x1_0000
  type Uint32 = x: int | 0 <= x < 0x1_0000_0000

  type Unicode = x: int | -0x8000_0000 <= x < 0x8000_0000  // int32_t

  const UINT_MAX: int := 0xFFFF_FFFF
  const INT_MAX: int := 0x7FFF_FFFF

  datatype Option<+T> = None | Some(value: T)

  datatype Result<+T, +E> = Ok(value: T) | Err(error: E)

  // Conversion of any integer to a C `unsigned int`.
  function ToUint32(x: int): Uint32 {
    x % 0x1_0000_0000
  }

  // ceil(width / 8)
  function ByteWidth(width: nat): nat {
    (width + 7) / 8
  }

  lemma Monotone(a: nat, a': nat, b: nat, b': nat)
    requires a <= a' && b <= b'
    ensures a * b <= a' * b'
  {
    assert a * b <= a' * b;
    assert a' * b <= a' * b';
  }

  lemma Assoc<T>(a: seq<T>, b: seq<T>, c: seq<T>, d: seq<T>)
    ensures a + b + c + d == a + (b + c + d)
  {
  }

  lemma Assoc3<T>(a: seq<T>, b: seq<T>, c: seq<T>)
    ensures a + b + c == a + (b + c)
  {
  }
}
