/** RingBuffer and its iterators, in place: every method is proved to act on the arrays and
    fields as the function of the same purpose in module Ring acts on the state as a value. */
module RingBufferClass {
  import opened Bytes
  import R = Ring

  class RingBuffer {
    const file: seq<byte>  // the contents of fp_
    const capacity: nat
    const arr0: array<byte>
    const arr1: array<byte>
    var pos: nat           // the position of fp_
    var eof: bool
    var eofArr: int
    var remain: nat
    var offset: nat
    var cur: nat

    ghost predicate Valid()
      reads this, arr0, arr1
    {
      arr0 != arr1 && View().Valid()
    }

    ghost function View(): R.Ring
      reads this, arr0, arr1
    {
      R.Ring(file, capacity, pos, arr0[..], arr1[..], eof, eofArr, remain, offset, cur)
    }

    constructor (capacity: nat, file: seq<byte>)
      requires 1 <= capacity
      ensures Valid() && fresh(arr0) && fresh(arr1)
      ensures View() == R.Open(file, capacity)
    {
      this.file, this.capacity := file, capacity;
      arr0 := new byte[capacity](_ => 0);
      arr1 := new byte[capacity](_ => 0);
      pos, eof, eofArr, remain, offset, cur := 0, false, -1, R.SIZE_MAX, 0, 0;
      new;
      assert arr0[..] == Zeros(capacity) && arr1[..] == Zeros(capacity);
      var _ := ReadFile(0);
    }

    method ReadFile(a: nat) returns (ret: int)
      requires Valid() && a <= 1
      modifies this`pos, this`eof, this`eofArr, this`remain, arr0, arr1
      ensures View() == R.Load(old(View()), a)
      ensures Valid()
      ensures ret == if old(eof) then -1 else 0
    {
      if eof {
        return -1;
      }
      var readSize := Min(capacity, |file| - pos);
      hide R.Load;
      Fill(a, readSize);
      pos := pos + readSize;
      if readSize < capacity {
        eof, eofArr, remain := true, a, readSize;
      }
      R.LoadedIsLoad(old(View()), a, View());
      return 0;
    }

    /** fread into the array of that number. */
    method Fill(a: nat, n: nat)
      requires Valid() && a <= 1 && n <= capacity && pos + n <= |file|
      modifies arr0, arr1
      ensures arr0[..] == if a == 0 then file[pos..pos + n] + old(arr0[..])[n..] else old(arr0[..])
      ensures arr1[..] == if a == 0 then old(arr1[..]) else file[pos..pos + n] + old(arr1[..])[n..]
    {
      ghost var was0, was1 := arr0[..], arr1[..];
      if a == 0 {
        Fread(arr0, n);
        assert was0[n..] == old(arr0[n..]) && arr1[..] == was1;
      } else {
        Fread(arr1, n);
        assert was1[n..] == old(arr1[n..]) && arr0[..] == was0;
      }
    }

    /** fread into one of the arrays: the bytes past the ones read keep their old values. */
    method Fread(a: array<byte>, n: nat)
      requires n <= a.Length && pos + n <= |file|
      modifies a
      ensures a[..] == file[pos..pos + n] + old(a[n..])
    {
      forall i | 0 <= i < n {
        a[i] := file[pos + i];
      }
    }

    function End(): (end: R.Cursor)
      reads this, arr0, arr1
      ensures end == R.End(View())
    {
      if eof then R.Cursor(remain, if eofArr == 0 then 0 else 1) else R.Cursor(capacity + 1, cur)
    }

    method SetOffset(it: R.Cursor)
      requires Valid() && View().OnBuffer(it)
      modifies this`offset, this`cur
      ensures Valid() && View() == R.SetOffset(old(View()), it)
    {
      offset, cur := it.offset, it.arr;
    }

    method Deref(it: R.Cursor) returns (b: byte)
      requires Valid() && View().OnBuffer(it)
      ensures b == R.Peek(View(), it)
    {
      if it.arr == 0 {
        b := arr0[it.offset];
      } else {
        b := arr1[it.offset];
      }
    }

    /** ++it */
    method Advance(it: R.Cursor) returns (next: R.Cursor)
      requires Valid() && View().OnBuffer(it)
      modifies this`pos, this`eof, this`eofArr, this`remain, arr0, arr1
      ensures Valid() && View() == R.Step(old(View()), it).0 && next == R.Step(old(View()), it).1
    {
      if it.offset == capacity - 1 {
        next := R.Cursor(0, R.Other(it.arr));
        var _ := ReadFile(next.arr);
      } else {
        next := R.Cursor(it.offset + 1, it.arr);
      }
    }

    /** it += n */
    method AdvanceBy(it: R.Cursor, n: nat) returns (next: R.Cursor)
      requires Valid() && View().OnBuffer(it)
      modifies this`pos, this`eof, this`eofArr, this`remain, arr0, arr1
      ensures Valid() && View() == R.Jump(old(View()), it, n).0 && next == R.Jump(old(View()), it, n).1
    {
      if it.offset + n < capacity {
        next := R.Cursor(it.offset + n, it.arr);
      } else if n > 2 * capacity - it.offset {
        next := it;
      } else {
        next := R.Cursor(it.offset + n - capacity, R.Other(it.arr));
        var _ := ReadFile(next.arr);
      }
    }

    /** it.GetDataBetween(to) */
    method GetDataBetween(it: R.Cursor, to: R.Cursor) returns (data: Option<seq<byte>>)
      requires Valid() && View().OnBuffer(it) && View().OnBuffer(to)
      ensures data == R.DataBetween(View(), it, to)
    {
      if it.arr == to.arr {
        if to.offset < it.offset {
          return None;
        }
        var a := if it.arr == 0 then arr0 else arr1;
        data := Some(a[it.offset..to.offset]);
      } else {
        var a, b := if it.arr == 0 then arr0 else arr1, if it.arr == 0 then arr1 else arr0;
        data := Some(a[it.offset..] + b[..to.offset]);
      }
    }

    /** The reading loop: from begin() of a freshly opened buffer it emits exactly the file,
        for every file, every capacity and any number of array swaps. */
    method Traverse() returns (out: seq<byte>)
      requires Valid() && View() == R.Open(file, capacity)
      modifies this`pos, this`eof, this`eofArr, this`remain, arr0, arr1
      ensures Valid() && out == file
    {
      out := [];
      var it := R.Cursor(offset, cur);
      R.OpenIsNewest(file, capacity);
      ghost var now := View();
      while R.NotEqual(it, End())
        invariant Valid() && View() == now && now.file == file
        invariant R.Reading(now, it, out)
        decreases |file| - |out|
      {
        R.ReadingAdvances(now, it, out);
        var b := Deref(it);
        out := out + [b];
        it := Advance(it);
        now := View();
      }
      R.ReadingAdvances(now, it, out);
    }
  }
}
