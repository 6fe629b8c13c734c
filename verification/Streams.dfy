/**
 Byte streams: what the serialization routines need of std::ostream and std::istream,
 and the two ways to describe reading, as a function and as an effect on a stream.
 */
module Streams {

  type byte = b: int | 0 <= b < 256

  /**
   Reading a value off the front of a byte sequence: the value and what is left unread, or
   a serialization_error. `Unspecified` marks input on which the routines leave the defined
   language (a zero-length integer) or enter the legacy ASCII format.
   */
  datatype Parse<+T> = Parsed(value: T, rest: seq<byte>) | Rejected | Unspecified

  /** The same outcomes for a routine that consumes a stream. */
  datatype Outcome<+T> = Ok(value: T) | Thrown | Undefined

  /** A routine that returned r and left `unread` in the stream did what p says. */
  ghost predicate Agrees<T>(p: Parse<T>, r: Outcome<T>, unread: seq<byte>) {
    match p
    case Parsed(v, rest) => r == Ok(v) && unread == rest
    case Rejected => r == Thrown
    case Unspecified => r == Undefined
  }

  class OutStream {
    var written: seq<byte>

    constructor ()
      ensures written == []
    {
      written := [];
    }

    method Write(bytes: seq<byte>)
      modifies this
      ensures written == old(written) + bytes
    {
      written := written + bytes;
    }
  }

  class InStream {
    var unread: seq<byte>

    constructor (bytes: seq<byte>)
      ensures unread == bytes
    {
      unread := bytes;
    }

    /** The next byte, or -1 at the end of the stream. */
    method Bump() returns (ch: int)
      modifies this
      ensures if old(unread) == [] then ch == -1 && unread == [] else ch == old(unread)[0] && unread == old(unread)[1..]
    {
      if unread == [] {
        ch := -1;
      } else {
        ch := unread[0];
        unread := unread[1..];
      }
    }

    /** The next n bytes, or all that are left if there are fewer. */
    method Read(n: nat) returns (bytes: seq<byte>)
      modifies this
      ensures bytes == if n <= |old(unread)| then old(unread)[..n] else old(unread)
      ensures unread == old(unread)[|bytes|..]
    {
      bytes := if n <= |unread| then unread[..n] else unread;
      unread := unread[|bytes|..];
    }
  }
}
