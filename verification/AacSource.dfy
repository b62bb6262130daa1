/** AACMediaSource, in place: ADTS stepping over a RingBuffer object and the queue of frames. */
module AacSource {
  import opened Bytes
  import R = Ring
  import A = Adts
  import opened RingBufferClass

  class AACMediaSource {
    const ring: RingBuffer
    var frames: seq<seq<byte>>

    ghost predicate Valid()
      reads this, ring, ring.arr0, ring.arr1
    {
      ring.Valid() && 8 <= ring.capacity
    }

    constructor (capacity: nat, file: seq<byte>)
      requires 8 <= capacity
      ensures Valid() && fresh(ring) && fresh(ring.arr0) && fresh(ring.arr1)
      ensures ring.View() == R.Open(file, capacity) && frames == []
    {
      ring := new RingBuffer(capacity, file);
      frames := [];
    }

    /** GetFrameFromFile. parseAdtsHeader looks at the third byte only behind a syncword. */
    method GetFrameFromFile() returns (frame: A.Fetched)
      requires Valid()
      modifies ring, ring.arr0, ring.arr1
      ensures Valid()
      ensures ring.View() == A.GetFrame(old(ring.View())).0 && frame == A.GetFrame(old(ring.View())).1
    {
      hide A.Parse, A.Copy;
      var a, off := if ring.cur == 0 then ring.arr0 else ring.arr1, ring.offset;
      if a[off] != 0xFF {
        return A.Frame([]);
      }
      if ring.capacity <= off + 1 {
        return A.OutOfBounds;
      }
      if !A.HasSyncword(a[off], a[off + 1]) {
        return A.Frame([]);
      }
      if ring.capacity < off + A.HEADER {
        return A.OutOfBounds;
      }
      assert a[off..off + A.HEADER] == ring.View().Array(ring.cur)[off..off + A.HEADER];
      A.SyncwordParses(a[off..off + A.HEADER]);
      var size := A.Parse(a[off..off + A.HEADER]).value.aacFrameLength;
      if size < A.HEADER {
        return A.Throws;
      }
      frame := CopyFrame(size);
    }

    /** The memcpy out of the arrays and the move of the offset. */
    method CopyFrame(size: nat) returns (frame: A.Fetched)
      requires Valid() && A.HEADER <= size
      modifies ring, ring.arr0, ring.arr1
      ensures Valid()
      ensures ring.View() == A.Copy(old(ring.View()), size).0 && frame == A.Copy(old(ring.View()), size).1
    {
      hide R.Jump;
      var it := R.Cursor(ring.offset, ring.cur);
      var from := ring.AdvanceBy(it, A.HEADER);
      if ring.capacity < from.offset + size - A.HEADER {
        return A.OutOfBounds;
      }
      var a := if from.arr == 0 then ring.arr0 else ring.arr1;
      frame := A.Frame(a[from.offset..from.offset + size - A.HEADER]);
      A.JumpLands(ring.View(), it, size);
      var next := ring.AdvanceBy(it, size);
      if next.offset == ring.capacity {
        return A.OutOfBounds;
      }
      ring.SetOffset(next);
    }

    /** The task that CacheFrame enqueues: fetch one frame and keep it unless it is empty. */
    method CacheTask() returns (fetched: A.Fetched)
      requires Valid()
      modifies this`frames, ring, ring.arr0, ring.arr1
      ensures Valid()
      ensures ring.View() == A.GetFrame(old(ring.View())).0 && fetched == A.GetFrame(old(ring.View())).1
      ensures frames == if fetched.Frame? && fetched.data != [] then old(frames) + [fetched.data] else old(frames)
    {
      hide A.GetFrame;
      fetched := GetFrameFromFile();
      if fetched.Frame? && |fetched.data| > 0 {
        frames := frames + [fetched.data];
      }
    }

    /** The part of ReadFrame that runs under the lock once the queue is not empty. */
    method TakeFrame() returns (frame: seq<byte>)
      requires Valid() && frames != []
      modifies this`frames
      ensures [frame] + frames == old(frames)
    {
      frame := frames[0];
      frames := frames[1..];
    }
  }
}
