/**
 * The growable array of list/src/dynamic_array.rs (`TimestampSaver`): a fixed buffer of
 * optional `u64` timestamps with a `length`, grown by half its size when full, and an
 * iterator over the stored prefix.
 */
module DynamicArray {
  import opened Wrappers

  type u64 = x: int | 0 <= x < 0x1_0000_0000_0000_0000

  /** `MIN_SIZE`, the capacity of a new array. */
  const MIN_SIZE: nat := 10

  /** The largest `usize` of a 64-bit target; the iterator's cursor is a `usize`. */
  const USIZE_MAX: nat := 0xFFFF_FFFF_FFFF_FFFF

  function Max(a: nat, b: nat): nat { if a < b then b else a }

  class TimestampSaver {
    var buf: array<Option<u64>>
    var length: nat
    /** The stored timestamps: `buf[..length]` with the `Some` taken off. */
    ghost var Contents: seq<u64>

    ghost predicate Valid()
      reads this, buf
    {
      && length <= buf.Length
      && |Contents| == length
      && forall i :: 0 <= i < length ==> buf[i] == Some(Contents[i])
    }

    /** `new_empty`: capacity `MIN_SIZE`, nothing stored. */
    constructor NewEmpty()
      ensures Valid() && fresh(buf)
      ensures Contents == [] && length == 0 && buf.Length == MIN_SIZE
    {
      buf := new Option<u64>[MIN_SIZE](_ => None);
      length := 0;
      Contents := [];
    }

    /** `cap`: the buffer's size, never less than the number of stored timestamps. */
    function Cap(): (c: nat)
      reads this, buf
      requires Valid()
      ensures length <= c
    {
      buf.Length
    }

    /**
     * `grow`: a new buffer of `max(min_cap, cap + cap / 2)` slots holding the first `length`
     * elements of the old one.
     */
    method Grow(minCap: nat)
      requires Valid()
      modifies this
      ensures Valid() && fresh(buf)
      ensures buf.Length == Max(minCap, old(buf.Length) + old(buf.Length) / 2)
      ensures Contents == old(Contents) && length == old(length)
    {
      var oldCap := buf.Length;
      var newCap := oldCap + oldCap / 2;
      newCap := Max(minCap, newCap);
      var new_ := new Option<u64>[newCap](_ => None);
      for i := 0 to length
        modifies new_
        invariant forall j :: 0 <= j < i ==> new_[j] == buf[j]
      {
        new_[i] := buf[i];
      }
      buf := new_;
    }

    /**
     * `append`: grows the buffer only when it is full (to at least `length + 1` slots), then
     * stores the value at `length`. Earlier elements and, without growth, the buffer are kept.
     */
    method Append(value: u64)
      requires Valid()
      modifies this, buf
      ensures Valid()
      ensures Contents == old(Contents) + [value] && length == old(length) + 1
      ensures old(length) < old(buf.Length) ==> buf == old(buf)
      ensures old(length) == old(buf.Length) ==>
        fresh(buf) && buf.Length == Max(old(length) + 1, old(buf.Length) + old(buf.Length) / 2)
      ensures old(buf.Length) <= buf.Length
    {
      if length == Cap() {
        Grow(length + 1);
      }
      buf[length] := Some(value);
      length := length + 1;
      Contents := Contents + [value];
    }

    /** `at`: the element at `index`, or `None` at or past `length`. */
    method At(index: nat) returns (r: Option<u64>)
      requires Valid()
      ensures index < |Contents| ==> r == Some(Contents[index])
      ensures |Contents| <= index ==> r == None
    {
      if length > index {
        r := buf[index];
      } else {
        r := None;
      }
    }

    /** `into_iter`: an iterator with its cursor on the first element. */
    method IntoIter() returns (it: ListIterator)
      requires Valid() && length <= USIZE_MAX
      ensures fresh(it) && it.list == this && it.Valid() && it.current == 0
      ensures it.Remaining() == Contents
    {
      it := new ListIterator(this);
    }
  }

  /** The iterator over a `TimestampSaver`; `current` is a `usize` cursor. */
  class ListIterator {
    const list: TimestampSaver
    var current: nat

    ghost predicate Valid()
      reads this, list, list.buf
    {
      list.Valid() && list.length <= USIZE_MAX && current <= USIZE_MAX
    }

    /** What `Next` still yields, in order. */
    ghost function Remaining(): seq<u64>
      reads this, list, list.buf
      requires Valid()
    {
      if current < list.length then list.Contents[current..] else []
    }

    constructor (list: TimestampSaver)
      requires list.Valid() && list.length <= USIZE_MAX
      ensures this.list == list && current == 0 && Valid()
    {
      this.list := list;
      current := 0;
    }

    /** `next`: the element under the cursor, moving the cursor forwards; `None` past the end. */
    method Next() returns (r: Option<u64>)
      requires Valid()
      modifies this
      ensures Valid()
      ensures old(Remaining()) == [] ==> r == None && current == old(current)
      ensures old(Remaining()) != [] ==>
        r == Some(old(Remaining())[0]) && Remaining() == old(Remaining())[1..]
    {
      if current < list.length {
        var c := current;
        current := current + 1;
        r := list.buf[c];
      } else {
        r := None;
      }
    }

    /**
     * `next_back`: the element under the cursor, moving the cursor backwards. The cursor is a
     * `usize` decremented without a check: from 0 it wraps to `USIZE_MAX` (a debug build
     * panics instead), after which nothing more is yielded.
     */
    method NextBack() returns (r: Option<u64>)
      requires Valid()
      modifies this
      ensures Valid()
      ensures old(current) < list.length ==> r == Some(list.Contents[old(current)])
      ensures old(current) < list.length ==>
        current == if old(current) == 0 then USIZE_MAX else old(current) - 1
      ensures list.length <= old(current) ==> r == None && current == old(current)
    {
      if current < list.length {
        var c := current;
        current := if current == 0 then USIZE_MAX else current - 1;
        r := list.buf[c];
      } else {
        r := None;
      }
    }
  }

  /**
   * list/src/dynamic_array.rs:83-90 on a fresh iterator over a non-empty array: `next_back`
   * yields the FIRST element, the cursor wraps around, and both directions are exhausted.
   */
  method NextBackFromFront(list: TimestampSaver) returns (first: Option<u64>, second: Option<u64>, third: Option<u64>)
    requires list.Valid() && 0 < list.length <= USIZE_MAX
    ensures first == Some(list.Contents[0])
    ensures second == None && third == None
  {
    var it := list.IntoIter();
    first := it.NextBack();
    second := it.NextBack();
    third := it.Next();
  }
}
