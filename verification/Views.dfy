/** What a reader can still get out of a stream, independent of how the stream stores it. */
module Views {

  type Byte = b: int | 0 <= b < 256 witness 0

  datatype Option<+T> = None | Some(value: T)

  /** `readByte` yields a number, `null` (base64 stream at its end) or `undefined` (byte array overrun). */
  datatype Read = Got(b: Byte) | Null | Undefined

  /** `rest` is what is still unread. A base64 stream whose text goes on after its last byte (a trailing
    * line break) claims to be valid once more: that is `phantom`. A byte array remembers that it was
    * read past its end, since a later block read then fails even for length 0. */
  datatype View =
    | ArrayView(rest: seq<Byte>, overrun: bool)
    | Base64View(rest: seq<Byte>, phantom: bool)
  {
    predicate Valid() {
      rest != [] || (Base64View? && phantom)
    }

    function Size(): nat {
      |rest| + if Base64View? && phantom then 1 else 0
    }

    function AtEnd(): View {
      match this
      case ArrayView(_, _) => ArrayView([], true)
      case Base64View(_, _) => Base64View([], false)
    }

    function ReadByte(): (Read, View) {
      if rest != [] then (Got(rest[0]), this.(rest := rest[1..]))
      else (if ArrayView? then Undefined else Null, AtEnd())
    }

    /** A block read: all or nothing on a byte array, as much as there is on a base64 stream. */
    function ReadBlock(amt: nat): (Option<seq<Byte>>, View) {
      if ArrayView? && (overrun || amt > |rest|) then (None, this)
      else if amt <= |rest| then (Some(rest[..amt]), this.(rest := rest[amt..]))
      else (Some(rest), AtEnd())
    }
  }
}
