/** `Buffer` as the class over an array, proved against the buffer of values. */
module NetBuffer {
  import opened Sequences
  import opened Wrappers
  import opened BufferModel

  class Buffer {
    var buf: array<char>
    var writeIndex: int
    var readIndex: int

    /** The fields as a value. */
    ghost function State(): Buf
      reads this, buf
    {
      Buf(buf[..], writeIndex, readIndex)
    }

    constructor (size: nat)
      requires size <= INT_MAX
      ensures fresh(buf) && State() == Init(size) && Valid(State())
    {
      buf := new char[size](_ => '\0');
      writeIndex, readIndex := 0, 0;
    }

    /** `std::copy` of `data` to offset `at`. */
    static method Copy(data: seq<char>, target: array<char>, at: nat)
      requires at + |data| <= target.Length
      modifies target
      ensures target[..] == Overlay(old(target[..]), at, data)
    {
      for i := 0 to |data|
        invariant forall k :: 0 <= k < target.Length && !(at <= k < at + i) ==> target[k] == old(target[k])
        invariant forall k :: 0 <= k < i ==> target[at + k] == data[k]
      {
        target[at + i] := data[i];
      }
      assert forall k :: at <= k < at + |data| ==> target[k] == data[k - at];
    }

    /** Appends, growing the array when the bytes do not fit behind the write index. */
    method Input(view: seq<char>)
      requires Valid(State()) && |Contents(State())| + |view| <= INT_MAX
      modifies this, buf
      ensures Valid(State()) && BufferModel.Input(old(State()), view) == Some(State())
      ensures Contents(State()) == old(Contents(State())) + view
      ensures if |view| <= old(buf.Length - writeIndex)
              then buf == old(buf) && readIndex == old(readIndex) && writeIndex == old(writeIndex) + |view|
              else fresh(buf) && readIndex == 0 && writeIndex == buf.Length == |old(Contents(State()))| + |view|
    {
      InputAppends(State(), view);
      if |view| > buf.Length - writeIndex {
        Grow(|view|);
      }
      Copy(view, buf, writeIndex);
      writeIndex := writeIndex + |view|;
    }

    /** The growth branch: the unread bytes move to the front of a new array. */
    method Grow(extra: nat)
      requires Valid(State())
      modifies this
      ensures State() == Grown(old(State()), extra) && fresh(buf)
      ensures readIndex == 0 && writeIndex == |old(Contents(State()))| && buf.Length == writeIndex + extra
    {
      ghost var kept := Contents(State());
      var temp := new char[writeIndex - readIndex + extra](_ => '\0');
      Copy(buf[readIndex..writeIndex], temp, 0);
      assert temp[..] == kept + seq(extra, _ => '\0');
      buf := temp;
      writeIndex := writeIndex - readIndex;
      readIndex := 0;
    }

    method DisRead() returns (view: seq<char>)
      requires Valid(State())
      ensures view == Contents(State())
    {
      view := buf[readIndex..writeIndex];
    }

    /** Offset and length of the window for writing, inside the array unless it is full. */
    method DisWrite() returns (at: int, size: nat)
      requires Valid(State())
      ensures (at, size) == BufferModel.DisWrite(State())
      ensures 0 <= at && (at + size < buf.Length <==> writeIndex < buf.Length)
    {
      WindowInside(State());
      size := (buf.Length - writeIndex - 1) % SIZE_RANGE;
      at := writeIndex;
    }

    /** None of the state changes when the assertion fails. */
    method EraseData(len: nat) returns (ok: bool)
      requires Valid(State())
      modifies this`readIndex, this`writeIndex
      ensures ok <==> BufferModel.EraseData(old(State()), len).Some?
      ensures ok ==> Some(State()) == BufferModel.EraseData(old(State()), len)
      ensures !ok ==> State() == old(State())
      ensures len <= |old(Contents(State()))| ==> ok && Valid(State()) && Contents(State()) == old(Contents(State()))[len..]
      ensures len < |old(Contents(State()))| ==> readIndex == old(readIndex) + len && writeIndex == old(writeIndex)
      ensures len == |old(Contents(State()))| ==> readIndex == writeIndex == 0
    {
      EraseExactly(State(), len);
      if ToInt(readIndex + ToInt(len)) > writeIndex { return false; }
      if ToInt(readIndex + ToInt(len)) == writeIndex {
        readIndex, writeIndex := 0, 0;
      } else {
        readIndex := ToInt(readIndex + len);
      }
      ok := true;
    }

    /** The write index moves before the assertion. */
    method Already(len: nat) returns (ok: bool)
      requires Valid(State())
      modifies this`writeIndex
      ensures ok <==> BufferModel.Already(old(State()), len).Some?
      ensures ok ==> Some(State()) == BufferModel.Already(old(State()), len)
      ensures old(writeIndex) + len < buf.Length ==> ok && writeIndex == old(writeIndex) + len
    {
      AlreadyExactly(State(), len);
      writeIndex := ToInt(writeIndex + len);
      ok := writeIndex % SIZE_RANGE < buf.Length;
    }

    method Clear()
      requires Valid(State())
      modifies this`readIndex, this`writeIndex
      ensures Valid(State()) && Contents(State()) == [] && writeIndex == readIndex == 0
    {
      writeIndex := 0;
      readIndex := 0;
    }
  }
}
