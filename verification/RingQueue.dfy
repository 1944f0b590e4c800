/**
 The ring-buffer queue (internal/queue/queue.go): a power-of-two buffer with masked indices that
 doubles when full and halves when a quarter full, proved to be a sequence.
 */
module RingQueue {
  import opened RingIndex

  datatype Cell<+V> = Nil | Ptr(value: V)

  datatype Panic<+V> = Value(value: V) | Panicked

  const MIN_QUEUE_LEN := 16

  // ---- Masks ---------------------------------------------------------------------------------------

  /** Go's bitwise x & y on non-negative integers. */
  function BitAnd(x: nat, y: nat): (r: nat)
    decreases x
  {
    if x == 0 then 0 else 2 * BitAnd(x / 2, y / 2) + (if x % 2 == 1 && y % 2 == 1 then 1 else 0)
  }

  /** A power of two, built by doubling. */
  predicate PowerOfTwo(n: nat) {
    n == 1 || (n > 1 && n % 2 == 0 && PowerOfTwo(n / 2))
  }

  /** Masking with one less than a power of two is the remainder. */
  lemma {:induction false} MaskIsMod(x: nat, n: nat)
    requires PowerOfTwo(n)
    ensures BitAnd(x, n - 1) == x % n
    decreases n
  {
    if n == 1 {
      MaskZero(x);
    } else if x == 0 {
      DivModIs(0, n, 0, 0);
    } else {
      var h := n / 2;
      MaskIsMod(x / 2, h);
      HalfMod(x, h);
      MaskStep(x, h);
    }
  }

  lemma MaskStep(x: nat, h: nat)
    requires x > 0 && h > 0
    ensures BitAnd(x, 2 * h - 1) == 2 * BitAnd(x / 2, h - 1) + x % 2
  {
    var y := 2 * h - 1;
    assert y / 2 == h - 1 && y % 2 == 1;
  }

  lemma {:induction false} MaskZero(x: nat)
    ensures BitAnd(x, 0) == 0
  {
    if x > 0 {
      MaskZero(x / 2);
    }
  }

  lemma HalfMod(x: nat, h: nat)
    requires h > 0
    ensures x % (2 * h) == 2 * (x / 2 % h) + x % 2
  {
    var q, r := x / 2 / h, x / 2 % h;
    assert x / 2 == h * q + r;
    assert x == 2 * (h * q) + 2 * r + x % 2;
    assert (2 * h) * q == 2 * (h * q);
    DivModIs(x, 2 * h, q, 2 * r + x % 2);
  }

  lemma DoubleIsPower(n: nat)
    requires PowerOfTwo(n)
    ensures PowerOfTwo(2 * n)
  {}

  /** The power of two before one above 16 is at least 16. */
  lemma AboveSixteen(n: nat)
    requires PowerOfTwo(n) && n > 16
    ensures PowerOfTwo(n / 2) && n % 2 == 0 && n / 2 >= 16
  {
    assert PowerOfTwo(n / 2) && PowerOfTwo(n / 2 / 2) && PowerOfTwo(n / 2 / 2 / 2);
    assert PowerOfTwo(n / 2 / 2 / 2 / 2) && n / 2 / 2 / 2 / 2 >= 1;
    assert n / 2 / 2 / 2 > 2 ==> n / 2 / 2 / 2 >= 4;
  }

  // ---- The ring as a sequence ------------------------------------------------------------------------------

  /** The cells from head on, count of them. */
  function Unrolled<V>(b: seq<Cell<V>>, head: nat, count: nat): (s: seq<Cell<V>>)
    requires head < |b| && count <= |b|
    ensures |s| == count && forall i :: 0 <= i < count ==> s[i] == b[Ring(head, |b|, i)]
  {
    seq(count, i requires 0 <= i < count => b[Ring(head, |b|, i)])
  }

  function Values<V>(s: seq<Cell<V>>): (r: seq<V>)
    requires forall i :: 0 <= i < |s| ==> s[i].Ptr?
    ensures |r| == |s| && forall i :: 0 <= i < |s| ==> r[i] == s[i].value
  {
    seq(|s|, i requires 0 <= i < |s| => s[i].value)
  }

  /** How many elements Go's copy takes: as many as both sides have. */
  function Copied(to: nat, from: nat): (n: nat)
    ensures n <= to && n <= from && (n == to || n == from)
  {
    if to < from then to else from
  }

  class Queue<V> {
    var buf: array<Cell<V>>
    var head: nat
    var tail: nat
    var count: nat

    ghost predicate Valid()
      reads this, buf
    {
      var n := buf.Length;
      n >= MIN_QUEUE_LEN && PowerOfTwo(n)
      && head < n && count <= n && tail == Ring(head, n, count)
      && (forall i :: 0 <= i < count ==> Unrolled(buf[..], head, count)[i].Ptr?)
    }

    /** The elements in order. */
    ghost function Elements(): (s: seq<V>)
      requires Valid()
      reads this, buf
      ensures |s| == count
    {
      Values(Unrolled(buf[..], head, count))
    }

    constructor ()
      ensures Valid() && Elements() == [] && fresh(buf)
    {
      buf := new Cell<V>[MIN_QUEUE_LEN](_ => Nil);
      head, tail, count := 0, 0, 0;
    }

    function Length(): (n: nat)
      requires Valid()
      reads this, buf
      ensures n == |Elements()|
    {
      count
    }

    /** resize: the elements move to the start of a buffer of twice their number, whatever that is. */
    method Resize()
      requires Valid()
      modifies this`buf, this`head, this`tail
      ensures fresh(buf) && buf.Length == 2 * count && head == 0 && tail == count
      ensures buf[..count] == old(Unrolled(buf[..], head, count))
      ensures 2 * count >= MIN_QUEUE_LEN && PowerOfTwo(2 * count) ==> Valid() && Elements() == old(Elements())
    {
      hide Ring, PowerOfTwo, Values;
      ghost var b, cells := buf[..], Unrolled(buf[..], head, count);
      var newBuf := new Cell<V>[2 * count](_ => Nil);
      if tail > head {
        Wrap(head, |b|, count);
        forall i | 0 <= i < tail - head {
          newBuf[i] := buf[head + i];
        }
      } else {
        Wrap(head, |b|, count);
        var n := Copied(newBuf.Length, buf.Length - head);
        forall i | 0 <= i < n {
          newBuf[i] := buf[head + i];
        }
        forall i | 0 <= i < Copied(newBuf.Length - n, tail) {
          newBuf[n + i] := buf[i];
        }
      }
      forall i | 0 <= i < count ensures newBuf[i] == cells[i] {
        Wrap(head, |b|, i);
      }
      assert newBuf[..count] == cells;
      head := 0;
      tail := count;
      buf := newBuf;
      if count > 0 {
        StartsAtZero(newBuf[..], count);
      }
    }

    method Add(elem: V)
      requires Valid()
      modifies this, buf
      ensures Valid() && (buf == old(buf) || fresh(buf))
      ensures Elements() == old(Elements()) + [elem]
      ensures buf.Length == if old(count) == old(buf.Length) then 2 * old(buf.Length) else old(buf.Length)
    {
      hide Ring, BitAnd, Values, PowerOfTwo, Unrolled;
      if count == buf.Length {
        DoubleIsPower(count);
        Resize();
      }
      ghost var b, cells := buf[..], Unrolled(buf[..], head, count);
      RingIsMod(tail, buf.Length, 1);
      buf[tail] := Ptr(elem);
      MaskIsMod(tail + 1, buf.Length);
      AddCell(b, head, count, Ptr(elem));
      tail := BitAnd(tail + 1, buf.Length - 1);
      count := count + 1;
      assert Unrolled(buf[..], head, count) == cells + [Ptr(elem)] by {
        assert buf[..] == b[Ring(head, |b|, count - 1) := Ptr(elem)];
      }
      assert Valid();
      ValuesMore(cells, elem);
    }

    method Peek() returns (r: Panic<V>)
      requires Valid()
      ensures r == if Elements() == [] then Panicked else Value(Elements()[0])
    {
      if count <= 0 {
        return Panicked;
      }
      Wrap(head, buf.Length, 0);
      assert Unrolled(buf[..], head, count)[0] == buf[head];
      r := Value(buf[head].value);
    }

    /** Get by index from the front, or from the back when negative. */
    method Get(i: int) returns (r: Panic<V>)
      requires Valid()
      ensures var s := Elements();
              r == if 0 <= i < |s| then Value(s[i]) else if -|s| <= i < 0 then Value(s[|s| + i]) else Panicked
    {
      var j := i;
      if j < 0 {
        j := j + count;
      }
      if j < 0 || j >= count {
        return Panicked;
      }
      MaskIsMod(head + j, buf.Length);
      assert Unrolled(buf[..], head, count)[j] == buf[Ring(head, buf.Length, j)];
      r := Value(buf[BitAnd(head + j, buf.Length - 1)].value);
    }

    method Remove() returns (r: Panic<V>)
      requires Valid()
      modifies this, buf
      ensures Valid() && (buf == old(buf) || fresh(buf))
      ensures old(Elements()) == [] ==> r == Panicked && Elements() == []
      ensures old(Elements()) != [] ==> r == Value(old(Elements())[0]) && Elements() == old(Elements())[1..]
      ensures buf.Length
           == if old(count) > 0 && old(buf.Length) > MIN_QUEUE_LEN && 4 * (old(count) - 1) == old(buf.Length)
              then old(buf.Length) / 2 else old(buf.Length)
    {
      if count <= 0 {
        return Panicked;
      }
      hide Ring, BitAnd, Values, PowerOfTwo, Unrolled;
      ghost var b, h, cells := buf[..], head, Unrolled(buf[..], head, count);
      Wrap(head, buf.Length, 0);
      assert cells[0] == buf[head];
      var ret := buf[head];
      buf[head] := Nil;
      MaskIsMod(head + 1, buf.Length);
      DropCell(b, head, count);
      RingIsMod(head, buf.Length, 1);
      head := BitAnd(head + 1, buf.Length - 1);
      count := count - 1;
      assert Unrolled(buf[..], head, count) == cells[1..] by {
        assert buf[..] == b[h := Nil];
      }
      assert Valid();
      assert Elements() == old(Elements())[1..] by {
        ValuesTail(cells);
      }
      ResizeDown();
      r := Value(ret.value);
    }

    /** The resize of a removal: only when a quarter of a buffer above the least is in use. */
    method ResizeDown()
      requires Valid()
      modifies this`buf, this`head, this`tail
      ensures Valid() && (buf == old(buf) || fresh(buf)) && Elements() == old(Elements())
      ensures buf.Length == if old(buf.Length) > MIN_QUEUE_LEN && 4 * count == old(buf.Length)
                            then old(buf.Length) / 2 else old(buf.Length)
    {
      hide Unrolled, Values;
      if buf.Length > MIN_QUEUE_LEN && 4 * count == buf.Length {
        AboveSixteen(buf.Length);
        Resize();
      }
    }
  }

  lemma RingIsMod(from: nat, n: nat, k: nat)
    requires n >= 1
    ensures Ring(from, n, k) == (from + k) % n
  {}

  lemma ValuesMore<V>(s: seq<Cell<V>>, v: V)
    requires forall i :: 0 <= i < |s| ==> s[i].Ptr?
    ensures Values(s + [Ptr(v)]) == Values(s) + [v]
  {}

  lemma ValuesTail<V>(s: seq<Cell<V>>)
    requires |s| > 0 && forall i :: 0 <= i < |s| ==> s[i].Ptr?
    ensures Values(s)[1..] == Values(s[1..])
  {}

  lemma StartsAtZero<V>(b: seq<Cell<V>>, count: nat)
    requires count < |b|
    ensures Unrolled(b, 0, count) == b[..count] && Ring(0, |b|, count) == count
  {
    hide Ring;
    Wrap(0, |b|, count);
    forall i | 0 <= i < count ensures Ring(0, |b|, i) == i {
      Wrap(0, |b|, i);
    }
  }

  lemma AddCell<V>(b: seq<Cell<V>>, head: nat, count: nat, c: Cell<V>)
    requires head < |b| && count < |b|
    ensures var t := Ring(head, |b|, count);
            Unrolled(b[t := c], head, count + 1) == Unrolled(b, head, count) + [c]
            && Ring(t, |b|, 1) == Ring(head, |b|, count + 1)
  {
    hide Ring;
    var t := Ring(head, |b|, count);
    Wrap(head, |b|, count);
    Wrap(t, |b|, 1);
    Wrap(head, |b|, count + 1);
    forall i | 0 <= i < count ensures Ring(head, |b|, i) != t {
      Wrap(head, |b|, i);
    }
  }

  lemma DropCell<V>(b: seq<Cell<V>>, head: nat, count: nat)
    requires head < |b| && 0 < count <= |b|
    ensures var h := Ring(head, |b|, 1);
            Unrolled(b[head := Nil], h, count - 1) == Unrolled(b, head, count)[1..]
            && Ring(h, |b|, count - 1) == Ring(head, |b|, count)
  {
    hide Ring;
    var h := Ring(head, |b|, 1);
    Wrap(head, |b|, 1);
    Wrap(h, |b|, count - 1);
    Wrap(head, |b|, count);
    forall i | 0 <= i < count - 1 ensures Ring(h, |b|, i) == Ring(head, |b|, i + 1) != head {
      Wrap(h, |b|, i);
      Wrap(head, |b|, i + 1);
    }
  }
}
