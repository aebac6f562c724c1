/** Value types shared by the wrapper: the Leptonica box records it reads out of
    native memory, Unity's 32-bit colour, and the 32-bit integer helpers. */
module Structures {

  /** An unsigned 8-bit value (C# `byte`). */
  newtype byte = x: int | 0 <= x < 256

  /** A signed 32-bit value (C# `Int32`). */
  type int32 = x: int | -0x8000_0000 <= x < 0x8000_0000

  /** A non-negative C# `int`, such as a texture's width or height. */
  type nat32 = x: int | 0 <= x < 0x8000_0000

  /** Two's-complement wrap-around of an unchecked C# `int` operation. */
  function Wrap32(x: int): (r: int32)
    ensures -0x8000_0000 <= x < 0x8000_0000 ==> r == x
    ensures (r - x) % 0x1_0000_0000 == 0
  {
    (x + 0x8000_0000) % 0x1_0000_0000 - 0x8000_0000
  }

  /** Multiplying by a natural number keeps the order. */
  lemma MulMono(a: nat, b: int, c: int)
    requires b <= c
    ensures a * b <= a * c
  {
  }

  /** Sequence concatenation regrouped; a hint for call traces built in steps. */
  lemma Associative<T>(a: seq<T>, b: seq<T>, c: seq<T>)
    ensures a + b + c == a + (b + c)
  {
  }

  /** Leptonica's BOX: a word's bounding box, origin at the bottom left. */
  datatype Box = Box(x: int32, y: int32, w: int32, h: int32, refcount: int32)

  /** Leptonica's BOXA header: count, capacity, reference count and the
      address of the array of box pointers. */
  datatype Boxa = Boxa(n: int32, nalloc: int32, refcount: int32, box: int)

  /** Unity's Color32: four 8-bit channels. */
  datatype Color32 = Color32(r: byte, g: byte, b: byte, a: byte)

  /** Unity's Rect, with its float coordinates taken as integers. */
  datatype Rect = Rect(x: int, y: int, width: int, height: int)

  /** A C# reference that may be null. */
  datatype Option<+T> = None | Some(value: T)

  /** The runtime exceptions the recognition path can raise. */
  datatype Exception =
    | OverflowException            // `new Box[n]` with a negative n
    | ArgumentOutOfRangeException  // `List<int>` indexed past its count
    | IndexOutOfRangeException     // array indexed past its length

  /** How a C# call ends: it returns a value or it throws. */
  datatype Outcome<+T> = Returned(value: T) | Threw(exception: Exception)
}
