/** H264MediaSource, in place: the splitter over a RingBuffer object and the queue of frames. */
module H264Source {
  import opened Bytes
  import R = Ring
  import S = H264Splitter
  import opened RingBufferClass

  class H264MediaSource {
    const ring: RingBuffer
    var frames: seq<seq<byte>>

    ghost predicate Valid()
      reads this, ring, ring.arr0, ring.arr1
    {
      ring.Valid() && 4 <= ring.capacity
    }

    constructor (capacity: nat, file: seq<byte>)
      requires 4 <= capacity
      ensures Valid() && fresh(ring) && fresh(ring.arr0) && fresh(ring.arr1)
      ensures ring.View() == R.Open(file, capacity) && frames == []
    {
      ring := new RingBuffer(capacity, file);
      frames := [];
    }

    method PeekAt(it: R.Cursor, k: nat) returns (b: byte)
      requires Valid() && ring.View().OnBuffer(it) && k <= 3
      modifies ring, ring.arr0, ring.arr1
      ensures Valid()
      ensures ring.View() == S.PeekAt(old(ring.View()), it, k).0 && b == S.PeekAt(old(ring.View()), it, k).1
    {
      var ahead := ring.AdvanceBy(it, k);
      b := ring.Deref(ahead);
    }

    method StartCode3(it: R.Cursor) returns (found: bool)
      requires Valid() && ring.View().OnBuffer(it)
      modifies ring, ring.arr0, ring.arr1
      ensures Valid()
      ensures ring.View() == S.StartCode3(old(ring.View()), it).0 && found == S.StartCode3(old(ring.View()), it).1
    {
      hide S.PeekAt;
      var b := ring.Deref(it);
      if b != 0 { return false; }
      b := PeekAt(it, 1);
      if b != 0 { return false; }
      b := PeekAt(it, 2);
      return b == 1;
    }

    method StartCode4(it: R.Cursor) returns (found: bool)
      requires Valid() && ring.View().OnBuffer(it)
      modifies ring, ring.arr0, ring.arr1
      ensures Valid()
      ensures ring.View() == S.StartCode4(old(ring.View()), it).0 && found == S.StartCode4(old(ring.View()), it).1
    {
      hide S.PeekAt;
      var b := ring.Deref(it);
      if b != 0 { return false; }
      b := PeekAt(it, 1);
      if b != 0 { return false; }
      b := PeekAt(it, 2);
      if b != 0 { return false; }
      b := PeekAt(it, 3);
      return b == 1;
    }

    method FindCode(it: R.Cursor) returns (k: nat)
      requires Valid() && ring.View().OnBuffer(it)
      modifies ring, ring.arr0, ring.arr1
      ensures Valid()
      ensures ring.View() == S.FindCode(old(ring.View()), it).0 && k == S.FindCode(old(ring.View()), it).1
    {
      hide S.StartCode3, S.StartCode4;
      var found := StartCode3(it);
      if found { return 3; }
      found := StartCode4(it);
      return if found then 4 else 0;
    }

    /** GetFrameFromFile; None is the exception that GetDataBetween throws for a negative size. */
    method GetFrameFromFile() returns (frame: Option<seq<byte>>)
      requires Valid()
      modifies ring, ring.arr0, ring.arr1
      ensures Valid()
      ensures ring.View() == S.GetFrame(old(ring.View())).0 && frame == S.GetFrame(old(ring.View())).1
    {
      hide S.FindCode, R.Jump, R.DataBetween, R.Step;
      var begin := R.Cursor(ring.offset, ring.cur);
      if R.Equal(begin, ring.End()) {
        return Some([]);
      }
      var k := FindCode(begin);
      if k == 0 {
        return Some([]);
      }
      var it := ring.AdvanceBy(begin, k);
      ghost var scan := S.Scan(ring.View(), it);
      ghost var now := ring.View();
      while R.NotEqual(it, ring.End())
        invariant Valid() && ring.View() == now && now.OnBuffer(it)
        invariant S.Scan(now, it) == scan
        decreases now.Unread(), S.ToGo(now, it)
      {
        S.StepProgresses(now, it, S.FindCode(now, it).0);
        var next := FindCode(it);
        now := ring.View();
        if next != 0 {
          break;
        }
        it := ring.Advance(it);
        now := ring.View();
      }
      if R.Equal(it, ring.End()) {
        return Some([]);
      }
      var from := ring.AdvanceBy(R.Cursor(ring.offset, ring.cur), k);
      frame := ring.GetDataBetween(from, it);
      if frame.Some? {
        ring.SetOffset(it);
      }
    }

    /** The task that CacheFrame enqueues: fetch one frame and keep it unless it is empty. */
    method CacheTask()
      requires Valid()
      modifies this`frames, ring, ring.arr0, ring.arr1
      ensures Valid()
      ensures var (r, frame) := S.GetFrame(old(ring.View()));
              && ring.View() == r
              && frames == if frame.Some? && frame.value != [] then old(frames) + [frame.value] else old(frames)
    {
      hide S.GetFrame;
      var frame := GetFrameFromFile();
      if frame.Some? && |frame.value| > 0 {
        frames := frames + [frame.value];
      }
    }

    /** The part of ReadFrame that runs under the lock once the queue is not empty. */
    method TakeFrame() returns (frame: seq<byte>)
      requires Valid() && frames != []
      modifies this`frames
      ensures [frame] + frames == old(frames)
    {
      frame := frames[0];
      frames := frames[1..];
    }
  }
}
