/** Input cursor over a NUL-terminated text, and the stack that holds output under construction. */
module Streams {
  import opened Bytes

  class StringStream {
    const src: seq<byte>
    var pos: nat

    constructor (src: seq<byte>)
      ensures this.src == src && pos == 0
    {
      this.src := src;
      pos := 0;
    }

    function Peek(): byte
      reads this
    {
      At(src, pos)
    }

    method Take() returns (c: byte)
      modifies this
      ensures c == old(Peek())
      ensures pos == old(pos) + 1
    {
      c := At(src, pos);
      pos := pos + 1;
    }

    method Consume(unit: byte) returns (hit: bool)
      modifies this
      ensures hit == (old(Peek()) == unit)
      ensures pos == if hit then old(pos) + 1 else old(pos)
    {
      hit := Peek() == unit;
      if hit {
        pos := pos + 1;
      }
    }
  }

  class Stack<T> {
    var items: seq<T>

    constructor ()
      ensures items == []
    {
      items := [];
    }

    function Top(): T
      requires items != []
      reads this
    {
      items[|items| - 1]
    }

    method SetTop(x: T)
      requires items != []
      modifies this
      ensures items == old(items)[|old(items)| - 1 := x]
    {
      items := items[|items| - 1 := x];
    }

    method Push(x: T)
      modifies this
      ensures items == old(items) + [x]
    {
      items := items + [x];
    }

    method Pop(n: nat) returns (xs: seq<T>)
      requires n <= |items|
      modifies this
      ensures old(items) == items + xs
      ensures |xs| == n
    {
      var k := |items| - n;
      xs := items[k..];
      items := items[..k];
    }

    method Clear()
      modifies this
      ensures items == []
    {
      items := [];
    }
  }
}
