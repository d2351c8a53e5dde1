/** The events a reader publishes and a writer, document or validator consumes. */
module Sax {
  import opened Bytes

  /** A double: `Finite` carries the value the text denotes, rounding is not modelled. */
  datatype Double = Finite(v: real) | NaN | Inf(negative: bool)

  datatype Event =
    | Null
    | Bool(b: bool)
    | Int(i: int)
    | Uint(u: int)
    | Int64(i64: int)
    | Uint64(u64: int)
    | Double(d: Double)
    | RawNumber(text: seq<byte>)
    | String(str: seq<byte>)
    | StartObject
    | Key(name: seq<byte>)
    | EndObject(members: nat)
    | StartArray
    | EndArray(elements: nat)

  /** SizeType is a 32-bit unsigned integer. */
  const SIZE_LIMIT: nat := 0x1_0000_0000

  function Inc(n: nat): nat {
    (n + 1) % SIZE_LIMIT
  }

  /** A deterministic handler: what it answers depends on all the events it has been sent. */
  type Acceptance = seq<Event> -> bool

  class Handler {
    var log: seq<Event>
    const accept: Acceptance

    constructor (accept: Acceptance)
      ensures log == [] && this.accept == accept
    {
      log := [];
      this.accept := accept;
    }

    method Handle(e: Event) returns (ok: bool)
      modifies this
      ensures log == old(log) + [e]
      ensures ok == accept(log)
    {
      log := log + [e];
      ok := accept(log);
    }
  }
}
