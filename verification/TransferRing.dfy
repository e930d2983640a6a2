/** The circular buffer shared by the foreground and the interrupt routine.

    One slot is always left free, so that equal indices mean "empty" and never
    "full".  A ring is described by its storage, the index `rd` of the oldest
    byte and the index `wr` of the first free slot. */
module TransferRing {

  /** The stored elements, oldest first. */
  function Contents<T>(buf: seq<T>, rd: nat, wr: nat): (r: seq<T>)
    requires rd < |buf| && wr < |buf|
    ensures |r| == if rd <= wr then wr - rd else |buf| - rd + wr
    ensures |r| < |buf|
  {
    if rd <= wr then buf[rd..wr] else buf[rd..] + buf[..wr]
  }

  /** The number of slots the producer may fill without wrapping, by the
      three-way test of the transmit routine. */
  function Space(n: nat, rd: nat, wr: nat): (s: nat)
    requires rd < n && wr < n
  {
    if wr < rd then rd - 1 - wr
    else if rd > 0 then n - wr
    else n - 1 - wr
  }

  /** The number of elements the consumer may take without wrapping. */
  function Run(n: nat, rd: nat, wr: nat): (s: nat)
    requires rd < n && wr < n
  {
    if wr >= rd then wr - rd else n - rd
  }

  lemma WrapIndex(x: nat, n: nat)
    requires n > 0 && x < 2 * n
    ensures x % n == if x < n then x else x - n
  {
    if x >= n {
      assert x == n + (x - n);
      assert x / n == 1;
    }
  }

  /** The free run fits in the free slots, never reaches past the storage, and is
      empty exactly when the ring is full. */
  lemma SpaceIsFree<T>(buf: seq<T>, rd: nat, wr: nat)
    requires rd < |buf| && wr < |buf|
    ensures var s := Space(|buf|, rd, wr);
            && wr + s <= |buf|
            && s + |Contents(buf, rd, wr)| <= |buf| - 1
            && (s == 0 <==> |Contents(buf, rd, wr)| == |buf| - 1)
  {
  }

  /** Storing into a slot of the free run leaves the contents alone, and the
      contents stay the same for any later position of the consumer. */
  lemma WriteOutside<T>(buf: seq<T>, rd: nat, wr: nat, k: nat, x: T)
    requires rd < |buf| && wr < |buf|
    requires k < |buf| - wr && k + |Contents(buf, rd, wr)| < |buf|
    ensures Contents(buf[wr + k := x], rd, wr) == Contents(buf, rd, wr)
  {
  }

  /** Publishing a block that was stored in the free run appends it. */
  lemma AppendBlock<T>(buf: seq<T>, rd: nat, wr: nat, block: seq<T>)
    requires rd < |buf| && wr < |buf|
    requires wr + |block| <= |buf| && |block| + |Contents(buf, rd, wr)| < |buf|
    requires buf[wr..wr + |block|] == block
    ensures Contents(buf, rd, (wr + |block|) % |buf|) == Contents(buf, rd, wr) + block
  {
    WrapIndex(wr + |block|, |buf|);
    var next := (wr + |block|) % |buf|;
    if rd <= wr && wr + |block| < |buf| {
      assert buf[rd..next] == buf[rd..wr] + buf[wr..next];
    } else if rd <= wr {
      assert next == 0 || |block| == 0;
      assert buf[rd..] == buf[rd..wr] + buf[wr..];
    } else {
      assert buf[..next] == buf[..wr] + buf[wr..next];
    }
  }

  /** Storing one element in a ring that is not full appends it. */
  lemma Push<T>(buf: seq<T>, rd: nat, wr: nat, x: T)
    requires rd < |buf| && wr < |buf|
    requires (wr + 1) % |buf| != rd
    ensures |Contents(buf, rd, wr)| < |buf| - 1
    ensures Contents(buf[wr := x], rd, (wr + 1) % |buf|) == Contents(buf, rd, wr) + [x]
  {
    WrapIndex(wr + 1, |buf|);
    var stored := buf[wr := x];
    WriteOutside(buf, rd, wr, 0, x);
    assert stored[wr..wr + 1] == [x];
    AppendBlock(stored, rd, wr, [x]);
  }

  /** The ring test of the interrupt routine: a full ring is the only one whose
      next write index is the read index. */
  lemma FullTest<T>(buf: seq<T>, rd: nat, wr: nat)
    requires rd < |buf| && wr < |buf|
    ensures (wr + 1) % |buf| == rd <==> |Contents(buf, rd, wr)| == |buf| - 1
  {
    WrapIndex(wr + 1, |buf|);
  }

  /** Advancing the read index drops a prefix; that prefix lies in one piece in
      the storage. */
  lemma TakeBlock<T>(buf: seq<T>, rd: nat, wr: nat, k: nat)
    requires rd < |buf| && wr < |buf| && k <= Run(|buf|, rd, wr)
    ensures k <= |Contents(buf, rd, wr)| && rd + k <= |buf|
    ensures buf[rd..rd + k] == Contents(buf, rd, wr)[..k]
    ensures Contents(buf, (rd + k) % |buf|, wr) == Contents(buf, rd, wr)[k..]
  {
    WrapIndex(rd + k, |buf|);
    if rd <= wr {
      DropFront(buf[rd..wr], [], k);
      assert buf[rd + k..wr] == buf[rd..wr][k..];
    } else {
      DropFront(buf[rd..], buf[..wr], k);
      assert buf[rd + k..] == buf[rd..][k..];
    }
  }

  lemma DropFront<T>(a: seq<T>, b: seq<T>, k: nat)
    requires k <= |a|
    ensures (a + b)[..k] == a[..k] && (a + b)[k..] == a[k..] + b
  {
  }

  lemma RunElement<T>(buf: seq<T>, rd: nat, wr: nat, k: nat)
    requires rd < |buf| && wr < |buf| && k < Run(|buf|, rd, wr)
    ensures k < |Contents(buf, rd, wr)| && rd + k < |buf|
    ensures Contents(buf, rd, wr)[k] == buf[rd + k]
  {
  }

  lemma CancelPrefix<T>(a: seq<T>, b: seq<T>, c: seq<T>)
    requires a + b <= a + c
    ensures b <= c
  {
    assert b == (a + b)[|a|..] && c == (a + c)[|a|..];
  }
}
