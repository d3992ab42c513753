/** common/flip_buffer.h: a byte buffer consumed at the front, filled at the back and compacted by flip. */
module FlipBuffers {
  import opened Integers
  import opened IoBuffer

  class FlipBuffer {
    const data: array<u8>
    var begin: nat
    var end: nat

    ghost predicate Valid()
      reads this
    {
      begin <= end <= data.Length
    }

    // The bytes between the two indices.
    ghost function Contents(): seq<u8>
      requires Valid()
      reads this, data
    {
      data[begin..end]
    }

    constructor (capacity: nat)
      ensures Valid() && fresh(data)
      ensures data.Length == capacity && begin == end == 0
    {
      data := new u8[capacity];
      begin, end := 0, 0;
    }

    function Remaining(): (span: Span)
      requires Valid()
      reads this
      ensures span.Valid() && span.Size() == data.Length - end
    {
      Span(data, end, data.Length)
    }

    // Moves the contents to the start; the copy runs upwards, so overlap does not matter.
    method Flip()
      requires Valid()
      modifies this, data
      ensures Valid()
      ensures begin == 0 && end == old(end - begin)
      ensures Contents() == old(Contents())
    {
      var newEnd := end - begin;
      for i := 0 to newEnd
        invariant begin == old(begin) && end == old(end)
        invariant data[..i] == old(data[begin..begin + i])
        invariant data[i..] == old(data[i..])
      {
        data[i] := data[begin + i];
      }
      begin := 0;
      end := newEnd;
    }

    // Nothing checks that the end is not passed; the buffer stays valid exactly if it is not.
    method Consume(count: nat)
      modifies `begin
      ensures begin == old(begin) + count
      ensures old(Valid()) ==> (Valid() <==> count <= old(|Contents()|))
      ensures old(Valid()) && count <= old(|Contents()|) ==> Contents() == old(Contents())[count..]
    {
      begin := begin + count;
    }

    method Advance(count: nat)
      requires Valid() && end + count <= data.Length
      modifies `end
      ensures Valid()
      ensures end == old(end) + count
    {
      end := end + count;
    }
  }
}
