/** Cache flushing by address range.  A flush instruction is modelled by the address
    it is given: the data cache flushes the line that holds the address, the
    direct-mapped instruction cache the line at the address's index. */
module CacheFlush {
  import opened Bits

  function LineOf(a: nat, line: nat): nat
    requires line > 0
  {
    a / line
  }

  /** The place of an address in a direct-mapped cache of `lines` lines. */
  function IndexOf(a: nat, line: nat, lines: nat): nat
    requires line > 0 && lines > 0
  {
    LineOf(a, line) % lines
  }

  /** The last line that meets the range; that of its start if the range is empty. */
  function LastLine(start: nat, len: nat, line: nat): nat
    requires line > 0
  {
    LineOf(if len > 0 then start + len - 1 else start, line)
  }

  ghost predicate Hits(flushed: set<nat>, line: nat, l: nat)
    requires line > 0
  {
    exists f :: f in flushed && LineOf(f, line) == l
  }

  ghost predicate HitsIndex(flushed: set<nat>, line: nat, lines: nat, index: nat)
    requires line > 0 && lines > 0
  {
    exists f :: f in flushed && IndexOf(f, line, lines) == index
  }

  /** The address after `j` steps of one line. */
  function At(start: nat, line: nat, j: nat): nat {
    if j == 0 then start else At(start, line, j - 1) + line
  }

  lemma NextLine(a: nat, line: nat)
    requires line > 0
    ensures LineOf(a + line, line) == LineOf(a, line) + 1 && (a + line) % line == a % line
  {
    Remainder(a + line, line, a / line + 1, a % line);
  }

  lemma {:induction false} LineAt(start: nat, line: nat, j: nat)
    requires line > 0
    ensures LineOf(At(start, line, j), line) == LineOf(start, line) + j
    ensures At(start, line, j) % line == start % line
  {
    if j > 0 {
      LineAt(start, line, j - 1);
      NextLine(At(start, line, j - 1), line);
    }
  }

  lemma LineMonotone(a: nat, b: nat, line: nat)
    requires line > 0 && a <= b
    ensures LineOf(a, line) <= LineOf(b, line)
  {
    var x, y := a / line, b / line;
    if x > y {
      assert line * x >= line * (y + 1) == line * y + line;
    }
  }

  /** Addresses closer than a line behind an aligned one are on its line. */
  lemma SameLine(a: nat, b: nat, line: nat)
    requires line > 0 && a % line == 0 && a <= b < a + line
    ensures LineOf(b, line) == LineOf(a, line)
  {
    Remainder(b, line, a / line, b - a);
  }

  /** The addresses handed to the flush instruction hit `count` lines from that of
      `start` on, and no other. */
  ghost predicate FlushesLines(flushed: set<nat>, start: nat, line: nat, count: nat)
    requires line > 0
  {
    && (forall f :: f in flushed ==> LineOf(start, line) <= LineOf(f, line) < LineOf(start, line) + count)
    && (forall l :: LineOf(start, line) <= l < LineOf(start, line) + count ==> Hits(flushed, line, l))
  }

  lemma FlushNext(flushed: set<nat>, start: nat, line: nat, count: nat)
    requires line > 0 && FlushesLines(flushed, start, line, count)
    ensures FlushesLines(flushed + {At(start, line, count)}, start, line, count + 1)
  {
    var i := At(start, line, count);
    LineAt(start, line, count);
    var all, first := flushed + {i}, LineOf(start, line);
    forall l | first <= l < first + count + 1
      ensures Hits(all, line, l)
    {
      if l == first + count {
        assert i in all;
      } else {
        assert Hits(flushed, line, l);
        var f :| f in flushed && LineOf(f, line) == l;
        assert f in all;
      }
    }
  }

  /** Where the last line of a non-empty range lies when `count` steps reach its end
      and one step less does not. */
  lemma StepsToEnd(start: nat, len: nat, line: nat, count: nat)
    requires line > 0 && len > 0 && count > 0
    requires At(start, line, count - 1) < start + len <= At(start, line, count)
    ensures LineOf(start, line) + count - 1 <= LastLine(start, len, line) <= LineOf(start, line) + count
    ensures start % line == 0 ==> LastLine(start, len, line) == LineOf(start, line) + count - 1
  {
    var last := start + len - 1;
    LineAt(start, line, count - 1);
    LineAt(start, line, count);
    LineMonotone(At(start, line, count - 1), last, line);
    LineMonotone(last, At(start, line, count), line);
    if start % line == 0 {
      SameLine(At(start, line, count - 1), last, line);
    }
  }

  /** The loop of both routines: step from `start` to the end of the range, and once
      more for an unaligned start.  Every line that meets the range is flushed, and
      at most one more, right after it. */
  method FlushRange(start: nat, len: nat, k: nat) returns (flushed: set<nat>, ghost count: nat)
    ensures FlushesLines(flushed, start, Pow(2, k), count)
    ensures len > 0 ==>
              LastLine(start, len, Pow(2, k)) < LineOf(start, Pow(2, k)) + count <= LastLine(start, len, Pow(2, k)) + 2
    ensures len == 0 ==> count <= 1
  {
    var line := Pow(2, k);
    flushed, count := {}, 0;
    var i, end := start, start + len;
    while i < end
      invariant i == At(start, line, count)
      invariant FlushesLines(flushed, start, line, count)
      invariant if count > 0 then len > 0 && At(start, line, count - 1) < end else i == start
      decreases end - i
    {
      FlushNext(flushed, start, line, count);
      flushed := flushed + {i};
      i := i + line;
      count := count + 1;
    }
    if len > 0 {
      StepsToEnd(start, len, line, count);
    }
    AndLowMask(start, k);
    if And(start, line - 1) != 0 {
      FlushNext(flushed, start, line, count);
      flushed := flushed + {i};
      count := count + 1;
    }
  }

  /** Flush the data cache for `len` bytes from `start` on; lines have 2^k bytes. */
  method FlushData(start: nat, len: nat, k: nat) returns (flushed: set<nat>)
    ensures forall a :: start <= a < start + len ==> Hits(flushed, Pow(2, k), LineOf(a, Pow(2, k)))
    ensures forall f :: f in flushed ==>
              LineOf(start, Pow(2, k)) <= LineOf(f, Pow(2, k)) <= LastLine(start, len, Pow(2, k)) + 1
  {
    ghost var count;
    flushed, count := FlushRange(start, len, k);
    forall a | start <= a < start + len
      ensures Hits(flushed, Pow(2, k), LineOf(a, Pow(2, k)))
    {
      LineMonotone(start, a, Pow(2, k));
      LineMonotone(a, start + len - 1, Pow(2, k));
    }
  }

  /** Flush the instruction cache for `len` bytes from `start` on; lines have 2^k
      bytes and the cache has 2^m lines.  Although no more than the cache size is
      walked, every place of the cache that the range maps to is flushed. */
  method FlushInstructions(start: nat, len: nat, k: nat, m: nat) returns (flushed: set<nat>)
    ensures forall a :: start <= a < start + len ==>
              HitsIndex(flushed, Pow(2, k), Pow(2, m), IndexOf(a, Pow(2, k), Pow(2, m)))
  {
    var size := Pow(2, k) * Pow(2, m);
    var length := len;
    if length > size {
      length := size;
    }
    ghost var count;
    flushed, count := FlushRange(start, length, k);
    forall a | start <= a < start + len
      ensures HitsIndex(flushed, Pow(2, k), Pow(2, m), IndexOf(a, Pow(2, k), Pow(2, m)))
    {
      if length == len {
        LineFlushed(flushed, start, len, Pow(2, k), Pow(2, m), count, a);
      } else {
        WholeCacheFlushed(flushed, start, Pow(2, k), Pow(2, m), count, a);
      }
    }
  }

  lemma LineFlushed(flushed: set<nat>, start: nat, len: nat, line: nat, lines: nat, count: nat, a: nat)
    requires line > 0 && lines > 0 && FlushesLines(flushed, start, line, count)
    requires start <= a < start + len && LastLine(start, len, line) < LineOf(start, line) + count
    ensures HitsIndex(flushed, line, lines, IndexOf(a, line, lines))
  {
    LineMonotone(start, a, line);
    LineMonotone(a, start + len - 1, line);
    assert Hits(flushed, line, LineOf(a, line));
    var f :| f in flushed && LineOf(f, line) == LineOf(a, line);
    assert IndexOf(f, line, lines) == IndexOf(a, line, lines);
  }

  /** A range of the cache's size hits every index. */
  lemma WholeCacheFlushed(flushed: set<nat>, start: nat, line: nat, lines: nat, count: nat, a: nat)
    requires line > 0 && lines > 0 && FlushesLines(flushed, start, line, count)
    requires start <= a && LastLine(start, line * lines, line) < LineOf(start, line) + count
    ensures HitsIndex(flushed, line, lines, IndexOf(a, line, lines))
  {
    var first, x := LineOf(start, line), LineOf(a, line);
    LineMonotone(start, a, line);
    AtProduct(start, line, lines);
    LineAt(start, line, lines - 1);
    LineMonotone(At(start, line, lines - 1), start + line * lines - 1, line);
    var l := first + (x - first) % lines;
    SameResidue(x, first, lines);
    assert Hits(flushed, line, l);
    var f :| f in flushed && LineOf(f, line) == l;
    assert IndexOf(f, line, lines) == IndexOf(a, line, lines);
  }

  lemma {:induction false} AtProduct(start: nat, line: nat, j: nat)
    requires line > 0 && j > 0
    ensures line * j > 0 && At(start, line, j - 1) + line == start + line * j
  {
    if j > 1 {
      AtProduct(start, line, j - 1);
      assert line * j == line * (j - 1) + line;
    }
  }

  lemma SameResidue(x: nat, base: nat, n: nat)
    requires n > 0 && base <= x
    ensures (base + (x - base) % n) % n == x % n
  {
    var d, r := (x - base) / n, (x - base) % n;
    ShiftResidue(base + r, d, n);
    assert x == n * d + (base + r);
  }

  lemma ShiftResidue(y: nat, d: nat, n: nat)
    requires n > 0
    ensures (n * d + y) % n == y % n
  {
    assert n * d + y == n * (d + y / n) + y % n;
    Remainder(n * d + y, n, d + y / n, y % n);
  }
}
