/**
 * `readInt` and `readString`: the `uint32` and `string` types of section 5
 * of RFC 4251, read from a buffer that may not yet hold all of them. Too few
 * bytes is not an error but the answer `false`, after telling the stream (if
 * one was passed) to clean up.
 */
module Wire {
  import opened Bytes

  /** The outcome of a read: `false` (with whether `_cleanup` ran) or a value. */
  datatype Read<T> = Insufficient(cleanedUp: bool) | Value(value: T)

  /** The length-prefixed encoding of `s`. */
  function SshString(s: seq<uint8>): (r: seq<uint8>)
    ensures |r| == 4 + |s|
  {
    UInt32BE(|s|) + s
  }

  /** `readInt(buffer, start, stream, cb)`; `hasStream` says a stream was passed. */
  function ReadInt(buffer: seq<uint8>, start: nat, hasStream: bool): (r: Read<nat>)
    ensures r.Insufficient? <==> |buffer| < start + 4
    ensures r.Insufficient? ==> r.cleanedUp == hasStream
    ensures r.Value? ==> r.value < UINT32_LIMIT && UInt32BE(r.value) == buffer[start..start + 4]
  {
    if |buffer| < start + 4 then Insufficient(hasStream)
    else Value(ReadUInt32BE(buffer, start))
  }

  /** A uint32 written and read back is the same number. */
  lemma ReadIntOfWrite(prefix: seq<uint8>, v: nat, rest: seq<uint8>, hasStream: bool)
    requires v < UINT32_LIMIT
    ensures ReadInt(prefix + UInt32BE(v) + rest, |prefix|, hasStream) == Value(v)
  {
    ReadUInt32BEOfWrite(prefix, v, rest);
  }

  /**
   * Where the string at `start` lies: the pair (start + 4, end) when the
   * length header and that many bytes are present.
   */
  function StringBounds(buffer: seq<uint8>, start: nat, hasStream: bool): (r: Read<(nat, nat)>)
    ensures r.Insufficient? <==>
      (|buffer| < start + 4 || |buffer| < start + 4 + ReadUInt32BE(buffer, start))
    ensures r.Insufficient? ==> r.cleanedUp == hasStream
    ensures r.Value? ==>
      r.value.0 == start + 4 <= r.value.1 <= |buffer| &&
      r.value.1 == start + 4 + ReadUInt32BE(buffer, start) &&
      UInt32BE(r.value.1 - r.value.0) == buffer[start..start + 4]
  {
    if |buffer| < start + 4 then Insufficient(hasStream)
    else
      var len := ReadUInt32BE(buffer, start);
      if |buffer| < start + 4 + len then Insufficient(hasStream)
      else Value((start + 4, start + 4 + len))
  }

  /** A string written with its length prefix is found again, and nothing more. */
  lemma StringBoundsOfWrite(prefix: seq<uint8>, s: seq<uint8>, rest: seq<uint8>, hasStream: bool)
    requires |s| < UINT32_LIMIT
    ensures var buffer := prefix + SshString(s) + rest;
      StringBounds(buffer, |prefix|, hasStream) == Value((|prefix| + 4, |prefix| + 4 + |s|)) &&
      buffer[|prefix| + 4..|prefix| + 4 + |s|] == s
  {
    var buffer := prefix + SshString(s) + rest;
    assert buffer == prefix + UInt32BE(|s|) + (s + rest);
    ReadUInt32BEOfWrite(prefix, |s|, s + rest);
  }

  /** The length-prefix example: `00 00 00 07 "ssh-rsa"` ends at offset 11. */
  lemma StringBoundsExample()
    ensures StringBounds([0, 0, 0, 7] + Ascii("ssh-rsa"), 0, false) == Value((4, 11))
    ensures ([0, 0, 0, 7] + Ascii("ssh-rsa"))[4..11] == Ascii("ssh-rsa")
  {
    assert UInt32BE(7) == [0, 0, 0, 7];
    StringBoundsOfWrite([], Ascii("ssh-rsa"), [], false);
    assert [] + SshString(Ascii("ssh-rsa")) + [] == [0, 0, 0, 7] + Ascii("ssh-rsa");
  }

  /** A Node Buffer: its bytes, and the `_pos` property `readString` leaves on it. */
  class Buffer {
    const data: array<uint8>
    var pos: int

    /** A buffer over `bytes`, with `_pos` not yet set (-1 here). */
    constructor (bytes: seq<uint8>)
      ensures data[..] == bytes && pos == -1 && fresh(data)
    {
      data := new uint8[|bytes|](k requires 0 <= k < |bytes| => bytes[k]);
      pos := -1;
    }
  }

  /** `readString`'s optional third argument, after the argument shuffling. */
  datatype Destination =
    | AsSlice                                  // no encoding: a slice of the buffer
    | AsText(decode: seq<uint8> -> string)     // an encoding name: `toString(encoding, ...)`
    | Into(target: Buffer)                     // a Buffer: copy into it at 0

  /** What a successful `readString` returns. */
  datatype Text = Slice(bytes: seq<uint8>) | Decoded(text: string) | Target(target: Buffer)

  /** `target.copy` of `src` at 0: as many bytes as fit, the rest of `target` untouched. */
  function CopiedAt0(target: seq<uint8>, src: seq<uint8>): (r: seq<uint8>)
    ensures |r| == |target|
    ensures forall k :: 0 <= k < |target| ==> r[k] == if k < |src| then src[k] else target[k]
  {
    if |src| >= |target| then src[..|target|] else src + target[|src|..]
  }

  /**
   * `readString(buffer, start, encoding, stream, cb)`. On success `_pos` is
   * the end offset and the result is the string's bytes in the form the
   * destination asks for; otherwise nothing changes but the cleanup flag.
   */
  method ReadString(buffer: Buffer, start: nat, dest: Destination, hasStream: bool)
    returns (r: Read<Text>)
    modifies buffer`pos, if dest.Into? then {dest.target.data} else {}
    ensures var b := StringBounds(old(buffer.data[..]), start, hasStream);
      match b
      case Insufficient(cleaned) =>
        r == Insufficient(cleaned) && buffer.pos == old(buffer.pos) &&
        (dest.Into? ==> dest.target.data[..] == old(dest.target.data[..]))
      case Value((from, to)) =>
        var bytes := old(buffer.data[..])[from..to];
        buffer.pos == to &&
        match dest
        case AsSlice => r == Value(Slice(bytes))
        case AsText(decode) => r == Value(Decoded(decode(bytes)))
        case Into(target) =>
          r == Value(Target(target)) &&
          target.data[..] == CopiedAt0(old(target.data[..]), bytes)
  {
    var bounds := StringBounds(buffer.data[..], start, hasStream);
    if bounds.Insufficient? {
      return Insufficient(bounds.cleanedUp);
    }
    var (from, to) := bounds.value;
    var bytes := buffer.data[from..to];
    buffer.pos := to;
    match dest {
      case AsSlice =>
        r := Value(Slice(bytes));
      case AsText(decode) =>
        r := Value(Decoded(decode(bytes)));
      case Into(target) =>
        var n := if |bytes| < target.data.Length then |bytes| else target.data.Length;
        forall k | 0 <= k < n {
          target.data[k] := bytes[k];
        }
        r := Value(Target(target));
    }
  }
}
