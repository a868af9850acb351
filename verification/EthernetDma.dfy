/** Gathering a pbuf chain into the transmit descriptors of the Ethernet DMA, and scattering the
    receive descriptors into a pbuf chain.  The buffers of a descriptor ring are one allocation. */
module EthernetDma {
  import opened Machine
  import opened Wrappers

  const BUF_SIZE: nat := 1524
  const DESCRIPTORS: nat := 4
  const RING: nat := DESCRIPTORS * BUF_SIZE

  datatype Status = Ok | InUse

  function Flat(chain: seq<seq<byte>>): seq<byte> {
    if chain == [] then [] else Flat(chain[..|chain| - 1]) + chain[|chain| - 1]
  }

  /** The descriptor `d` links after descriptor `start`. */
  function Slot(start: nat, d: nat): (s: nat)
    ensures s < DESCRIPTORS
  {
    (start + d) % DESCRIPTORS
  }

  /** A frame starts in the descriptor asked for, and each link leads to the next one of the ring. */
  lemma SlotsInOrder(start: nat, d: nat)
    ensures Slot(start, 0) == start % DESCRIPTORS
    ensures Slot(start, d + 1) == if Slot(start, d) == 3 then 0 else Slot(start, d) + 1
  {
  }

  /** Where byte `o` of the buffer `d` links after `start` lies in the allocation. */
  function Cell(start: nat, d: nat, o: nat): (c: nat)
    ensures o < BUF_SIZE ==> c < RING
  {
    Slot(start, d) * BUF_SIZE + o
  }

  /** The number of links followed to store `len` bytes. */
  function Links(len: nat): nat {
    if len == 0 then 0 else (len - 1) / BUF_SIZE
  }

  /** `flat` has been gathered up to offset `off` of the buffer `d` links away: the last three
      buffers before it and the filled part of this one hold their bytes. */
  ghost predicate Stored(mem: seq<byte>, start: nat, flat: seq<byte>, d: nat, off: nat) {
    && |mem| == RING
    && |flat| == d * BUF_SIZE + off && off <= BUF_SIZE
    && forall dd: nat, o: nat {:trigger Cell(start, dd, o)} |
         dd <= d < dd + DESCRIPTORS && o < BUF_SIZE && dd * BUF_SIZE + o < |flat| ::
         mem[Cell(start, dd, o)] == flat[dd * BUF_SIZE + o]
  }

  /** The ring is unchanged from byte `len` of a frame on. */
  ghost predicate Untouched(before: seq<byte>, after: seq<byte>, start: nat, len: nat) {
    && |before| == RING == |after|
    && forall d: nat, o: nat {:trigger Cell(start, d, o)} |
         d < DESCRIPTORS && o < BUF_SIZE && d * BUF_SIZE + o >= len ::
         after[Cell(start, d, o)] == before[Cell(start, d, o)]
  }

  /** A memory with `src` written at `at`. */
  function Overwrite(mem: seq<byte>, at: nat, src: seq<byte>): (r: seq<byte>)
    requires at + |src| <= |mem|
    ensures |r| == |mem|
  {
    mem[..at] + src + mem[at + |src|..]
  }

  lemma CellsDiffer(start: nat, dd: nat, d: nat, o: nat, off: nat, n: nat)
    requires o < BUF_SIZE && off + n <= BUF_SIZE
    requires dd < d + DESCRIPTORS && d < dd + DESCRIPTORS
    ensures Cell(start, d, off) <= Cell(start, dd, o) < Cell(start, d, off) + n <==> dd == d && off <= o < off + n
  {
  }

  lemma StoredGrows(mem: seq<byte>, start: nat, flat: seq<byte>, d: nat, off: nat, src: seq<byte>)
    requires Stored(mem, start, flat, d, off) && off + |src| <= BUF_SIZE
    ensures Cell(start, d, off) + |src| <= RING
    ensures Stored(Overwrite(mem, Cell(start, d, off), src), start, flat + src, d, off + |src|)
  {
    var at := Cell(start, d, off);
    var after := Overwrite(mem, at, src);
    forall dd: nat, o: nat | dd <= d < dd + DESCRIPTORS && o < BUF_SIZE && dd * BUF_SIZE + o < |flat + src|
      ensures after[Cell(start, dd, o)] == (flat + src)[dd * BUF_SIZE + o]
    {
      CellsDiffer(start, dd, d, o, off, |src|);
      if dd == d && off <= o {
        assert after[at + (o - off)] == src[o - off];
      }
    }
  }

  lemma UntouchedGrows(before: seq<byte>, mem: seq<byte>, start: nat, d: nat, off: nat, src: seq<byte>, len: nat)
    requires Untouched(before, mem, start, len)
    requires off + |src| <= BUF_SIZE && d * BUF_SIZE + off + |src| <= len
    ensures Cell(start, d, off) + |src| <= RING
    ensures Untouched(before, Overwrite(mem, Cell(start, d, off), src), start, len)
  {
    var at := Cell(start, d, off);
    var after := Overwrite(mem, at, src);
    forall dd: nat, o: nat | dd < DESCRIPTORS && o < BUF_SIZE && dd * BUF_SIZE + o >= len
      ensures after[Cell(start, dd, o)] == before[Cell(start, dd, o)]
    {
      CellsDiffer(start, dd, d, o, off, |src|);
    }
  }

  lemma NextBuffer(mem: seq<byte>, start: nat, flat: seq<byte>, d: nat)
    requires Stored(mem, start, flat, d, BUF_SIZE)
    ensures Stored(mem, start, flat, d + 1, 0)
  {
  }

  class Ring {
    const own: array<bool>   // true: the descriptor belongs to the DMA
    const size: array<nat>   // the byte count programmed into each descriptor
    const mem: array<byte>

    ghost predicate Valid() {
      own.Length == DESCRIPTORS == size.Length && mem.Length == RING
    }

    constructor (fill: byte)
      ensures Valid() && fresh(own) && fresh(mem) && fresh(size)
      ensures forall i | 0 <= i < DESCRIPTORS :: !own[i]
    {
      own := new bool[DESCRIPTORS](_ => false);
      size := new nat[DESCRIPTORS](_ => 0);
      mem := new byte[RING](_ => fill);
    }

    /** All descriptors up to `d` links after `start` belong to the CPU. */
    ghost predicate Free(start: nat, d: nat)
      requires Valid()
      reads own
    {
      forall dd: nat {:trigger Slot(start, dd)} | dd <= d :: !own[Slot(start, dd)]
    }

    method CopyIn(at: nat, src: seq<byte>)
      requires Valid() && at + |src| <= RING
      modifies mem
      ensures mem[..] == Overwrite(old(mem[..]), at, src)
    {
      forall i | 0 <= i < |src| {
        mem[at + i] := src[i];
      }
    }

    /** Copies one pbuf, following links while it does not fit in the current buffer. */
    method GatherPbuf(start: nat, q: seq<byte>, d0: nat, off0: nat,
                      ghost flat: seq<byte>, ghost before: seq<byte>, ghost len: nat)
      returns (status: Status, d: nat, off: nat)
      requires Valid() && Stored(mem[..], start, flat, d0, off0) && Free(start, d0)
      requires d0 > 0 ==> off0 > 0
      requires |flat + q| <= len && Untouched(before, mem[..], start, len)
      modifies mem
      ensures status == Ok ==> Stored(mem[..], start, flat + q, d, off) && Free(start, d) && (d > 0 ==> off > 0)
      ensures status == InUse ==> own[Slot(start, d)] && 0 < d <= Links(|flat + q|)
      ensures Untouched(before, mem[..], start, len)
    {
      hide Stored, Untouched, Overwrite, Cell;
      d, off := d0, off0;
      var left, done := |q|, 0;
      assert flat + q[..0] == flat;
      StoredLength(mem[..], start, flat, d, off);
      while left + off > BUF_SIZE
        invariant 0 <= done <= |q| && left + done == |q|
        invariant Stored(mem[..], start, flat + q[..done], d, off) && Free(start, d)
        invariant |flat| + done == d * BUF_SIZE + off && off <= BUF_SIZE
        invariant d > 0 ==> off > 0 || left > 0
        invariant Untouched(before, mem[..], start, len)
        decreases left, off
      {
        var n := BUF_SIZE - off;
        ghost var part := flat + q[..done];
        StoredGrows(mem[..], start, part, d, off, q[done..done + n]);
        UntouchedGrows(before, mem[..], start, d, off, q[done..done + n], len);
        CopyIn(Cell(start, d, off), q[done..done + n]);
        assert part + q[done..done + n] == flat + q[..done + n];
        NextBuffer(mem[..], start, flat + q[..done + n], d);
        d := d + 1;
        if own[Slot(start, d)] {
          status := InUse;
          return;
        }
        left, done, off := left - n, done + n, 0;
      }
      ghost var part := flat + q[..done];
      StoredGrows(mem[..], start, part, d, off, q[done..]);
      UntouchedGrows(before, mem[..], start, d, off, q[done..], len);
      CopyIn(Cell(start, d, off), q[done..]);
      assert part + q[done..] == flat + q;
      off := off + left;
      status := Ok;
    }

    /** Gathers a whole chain from descriptor `start` on.  It fails exactly when a descriptor the
        frame needs still belongs to the DMA; otherwise the buffers hold the concatenated payloads,
        the reported length is their total, and the ring is untouched beyond them. */
    method Transmit(start: nat, chain: seq<seq<byte>>) returns (status: Status, frameLength: nat)
      requires Valid()
      modifies mem
      ensures status == Ok <==> chain == [] || Free(start, Links(|Flat(chain)|))
      ensures status == Ok ==>
        && frameLength == |Flat(chain)|
        && Stored(mem[..], start, Flat(chain), Links(frameLength), frameLength - Links(frameLength) * BUF_SIZE)
      ensures Untouched(old(mem[..]), mem[..], start, |Flat(chain)|)
    {
      hide Stored, Untouched, Slot;
      ghost var before, len := mem[..], |Flat(chain)|;
      var d: nat, off: nat := 0, 0;
      frameLength := 0;
      NothingStored(mem[..], start, len);
      for i := 0 to |chain|
        invariant frameLength == |Flat(chain[..i])| == d * BUF_SIZE + off && off <= BUF_SIZE
        invariant d > 0 ==> off > 0
        invariant i > 0 ==> Free(start, d)
        invariant Stored(mem[..], start, Flat(chain[..i]), d, off)
        invariant Untouched(before, mem[..], start, len)
      {
        FlatPrefix(chain, i);
        FlatPrefix(chain, i + 1);
        assert chain[..i + 1][..i] == chain[..i];
        if own[Slot(start, d)] {
          LinksMonotone(frameLength, len);
          return InUse, frameLength;
        }
        var s, d', off' := GatherPbuf(start, chain[i], d, off, Flat(chain[..i]), before, len);
        if s == InUse {
          LinksMonotone(|Flat(chain[..i + 1])|, len);
          return InUse, frameLength;
        }
        StoredLength(mem[..], start, Flat(chain[..i + 1]), d', off');
        frameLength, d, off := frameLength + |chain[i]|, d', off';
      }
      assert chain[..|chain|] == chain;
      status := Ok;
    }

    /** Hands a gathered frame to the DMA: the buffers it fills, marked and sized, no others.  A frame
        beyond the ring uses buffers again, and their last use counts. */
    method TransmitFrame(start: nat, len: nat) returns (ok: bool, next: nat)
      requires Valid()
      modifies own, size
      ensures ok <==> len > 0 && !old(own[Slot(start, 0)])
      ensures !ok ==> own[..] == old(own[..]) && size[..] == old(size[..]) && next == start
      ensures ok ==>
        && next == start + Links(len) + 1
        && Slot(next, 0) == (if Slot(start, Links(len)) == 3 then 0 else Slot(start, Links(len)) + 1)
        && (forall d: nat | d < DESCRIPTORS ::
              own[Slot(start, d)] == (d <= Links(len) || old(own[Slot(start, d)])))
        && (forall d: nat | d <= Links(len) < d + DESCRIPTORS :: 0 < size[Slot(start, d)] <= BUF_SIZE
              && size[Slot(start, d)] == if d < Links(len) then BUF_SIZE else len - d * BUF_SIZE)
        && (forall d: nat | Links(len) < d < DESCRIPTORS :: size[Slot(start, d)] == old(size[Slot(start, d)]))
    {
      hide Slot;
      if len == 0 || own[Slot(start, 0)] {
        return false, start;
      }
      var count := BufferCount(len);
      CountMatchesLinks(len);
      for i := 0 to count
        invariant forall d: nat | d < DESCRIPTORS :: own[Slot(start, d)] == (d < i || old(own[Slot(start, d)]))
        invariant forall d: nat | d < i <= d + DESCRIPTORS :: size[Slot(start, d)] == UsedSize(len, d)
        invariant forall d: nat | i <= d < DESCRIPTORS :: size[Slot(start, d)] == old(size[Slot(start, d)])
      {
        SlotsDiffer(start, i);
        size[Slot(start, i)] := if i == count - 1 then len - (count - 1) * BUF_SIZE else BUF_SIZE;
        own[Slot(start, i)] := true;
      }
      forall d: nat | d <= Links(len) < d + DESCRIPTORS
        ensures size[Slot(start, d)] == UsedSize(len, d) && 0 < UsedSize(len, d) <= BUF_SIZE
      {
        UsedSizeFits(len, d);
      }
      ok, next := true, start + count;
      SlotsInOrder(start, Links(len));
      SlotsMove(start, count, 0);
    }

    /** Copies into one pbuf of length `n`, following links when a buffer is used up. */
    method FillPbuf(first: nat, n: nat, d0: nat, off0: nat) returns (payload: array<byte>, d: nat, off: nat)
      requires Valid() && off0 <= BUF_SIZE
      ensures fresh(payload)
      ensures payload[..] == ReadOut(mem[..], first, d0 * BUF_SIZE + off0, n)
      ensures d * BUF_SIZE + off == d0 * BUF_SIZE + off0 + n && off <= BUF_SIZE
    {
      payload := new byte[n];
      d, off := d0, off0;
      ghost var from := d0 * BUF_SIZE + off0;
      var left, done := n, 0;
      while left + off > BUF_SIZE
        invariant 0 <= done <= n && left + done == n && off <= BUF_SIZE
        invariant d * BUF_SIZE + off == from + done
        invariant payload[..done] == ReadOut(mem[..], first, from, done)
        decreases left, off
      {
        var k := BUF_SIZE - off;
        CopyOut(payload, done, first, d, off, k, from);
        d := d + 1;
        left, done, off := left - k, done + k, 0;
      }
      CopyOut(payload, done, first, d, off, left, from);
      off := off + left;
      assert payload[..] == payload[..n];
    }

    method CopyOut(payload: array<byte>, done: nat, first: nat, d: nat, off: nat, k: nat, ghost from: nat)
      requires Valid() && payload != mem && done + k <= payload.Length && off + k <= BUF_SIZE
      requires d * BUF_SIZE + off == from + done
      requires payload[..done] == ReadOut(mem[..], first, from, done)
      modifies payload
      ensures payload[..done + k] == ReadOut(mem[..], first, from, done + k)
    {
      var at := Cell(first, d, off);
      ghost var kept, image := payload[..done], mem[..];
      forall i | 0 <= i < k {
        payload[done + i] := mem[at + i];
      }
      assert mem[..] == image;
      ghost var want := ReadOut(image, first, from, done + k);
      assert kept == want[..done];
      forall i | 0 <= i < done + k
        ensures payload[i] == want[i]
      {
        if i < done {
          assert payload[i] == kept[i];
        } else {
          Position(d, off + (i - done));
          assert from + i == d * BUF_SIZE + (off + (i - done));
          assert want[i] == mem[Cell(first, d, off + (i - done))];
          assert payload[done + (i - done)] == mem[at + (i - done)];
        }
      }
    }

    /** Copies a frame into freshly allocated pbufs with the given segment lengths. */
    method Scatter(first: nat, lens: seq<nat>) returns (chain: seq<array<byte>>)
      requires Valid()
      ensures |chain| == |lens|
      ensures forall i | 0 <= i < |chain| :: chain[i].Length == lens[i] && fresh(chain[i])
      ensures Flat(Contents(chain)) == ReadOut(mem[..], first, 0, Sum(lens))
    {
      hide ReadOut, Flat, Sum, Contents;
      chain := [];
      var d: nat, off: nat := 0, 0;
      ghost var image := mem[..];
      NothingScattered(image, first, lens);
      NoContents();
      for i := 0 to |lens|
        invariant |chain| == i && off <= BUF_SIZE
        invariant d * BUF_SIZE + off == Sum(lens[..i])
        invariant forall j | 0 <= j < i :: chain[j].Length == lens[j] && fresh(chain[j])
        invariant Flat(Contents(chain)) == ReadOut(image, first, 0, Sum(lens[..i]))
      {
        var payload;
        ghost var parts := Contents(chain);
        payload, d, off := FillPbuf(first, lens[i], d, off);
        assert Contents(chain) == parts;
        ContentsGrow(chain, payload);
        Scattered(image, first, parts, payload[..], lens, i);
        assert payload.Length == |payload[..]|;
        chain := chain + [payload];
      }
      assert lens[..|lens|] == lens;
    }

    /** Gives `segCount` descriptors from `first` on back to the DMA. */
    method HandBack(first: nat, segCount: nat)
      requires Valid()
      modifies own
      ensures forall s | 0 <= s < DESCRIPTORS ::
        own[s] == (old(own[s]) || exists i: nat :: i < segCount && Slot(first, i) == s)
    {
      for i := 0 to segCount
        invariant forall s | 0 <= s < DESCRIPTORS ::
          own[s] == (old(own[s]) || exists j: nat :: j < i && Slot(first, j) == s)
      {
        own[Slot(first, i)] := true;
      }
    }

    /** Receives a frame into a chain (`None`: no memory for one); either way the descriptors it
        occupied go back to the DMA. */
    method Receive(first: nat, lens: Option<seq<nat>>, segCount: nat) returns (chain: seq<array<byte>>)
      requires Valid()
      modifies own
      ensures lens == None ==> chain == []
      ensures lens.Some? ==>
        && |chain| == |lens.value|
        && (forall i | 0 <= i < |chain| :: chain[i].Length == lens.value[i])
        && Flat(Contents(chain)) == ReadOut(mem[..], first, 0, Sum(lens.value))
      ensures forall s | 0 <= s < DESCRIPTORS ::
        own[s] == (old(own[s]) || exists i: nat :: i < segCount && Slot(first, i) == s)
    {
      chain := [];
      if lens.Some? {
        chain := Scatter(first, lens.value);
      }
      ghost var contents := Contents(chain);
      HandBack(first, segCount);
      assert Contents(chain) == contents;
    }
  }

  lemma NothingScattered(mem: seq<byte>, first: nat, lens: seq<nat>)
    requires |mem| == RING
    ensures Sum(lens[..0]) == 0 && ReadOut(mem, first, 0, 0) == []
  {
  }

  /** One more pbuf filled. */
  lemma Scattered(mem: seq<byte>, first: nat, parts: seq<seq<byte>>, part: seq<byte>, lens: seq<nat>, i: nat)
    requires |mem| == RING && i < |lens|
    requires Flat(parts) == ReadOut(mem, first, 0, Sum(lens[..i]))
    requires part == ReadOut(mem, first, Sum(lens[..i]), lens[i])
    ensures Sum(lens[..i + 1]) == Sum(lens[..i]) + lens[i]
    ensures Flat(parts + [part]) == ReadOut(mem, first, 0, Sum(lens[..i + 1]))
  {
    hide ReadOut;
    assert lens[..i + 1][..i] == lens[..i];
    FlatAppend(parts, part);
    ReadOutConcat(mem, first, 0, Sum(lens[..i]), lens[i]);
  }

  lemma StoredLength(mem: seq<byte>, start: nat, flat: seq<byte>, d: nat, off: nat)
    requires Stored(mem, start, flat, d, off)
    ensures |flat| == d * BUF_SIZE + off && off <= BUF_SIZE
  {
  }

  function Sum(lens: seq<nat>): nat {
    if lens == [] then 0 else Sum(lens[..|lens| - 1]) + lens[|lens| - 1]
  }

  function Contents(chain: seq<array<byte>>): (r: seq<seq<byte>>)
    reads chain
    ensures |r| == |chain|
  {
    seq(|chain|, i requires 0 <= i < |chain| reads chain => chain[i][..])
  }

  lemma NoContents()
    ensures Flat(Contents([])) == []
  {
  }

  lemma ContentsGrow(chain: seq<array<byte>>, payload: array<byte>)
    ensures Contents(chain + [payload]) == Contents(chain) + [payload[..]]
  {
  }

  /** The bytes of a frame held in the ring from descriptor `first` on. */
  function ReadOut(mem: seq<byte>, first: nat, from: nat, len: nat): (r: seq<byte>)
    requires |mem| == RING
    ensures |r| == len
  {
    seq(len, i requires 0 <= i && |mem| == RING => mem[Cell(first, (from + i) / BUF_SIZE, (from + i) % BUF_SIZE)])
  }

  lemma Position(d: nat, o: nat)
    requires o < BUF_SIZE
    ensures (d * BUF_SIZE + o) / BUF_SIZE == d && (d * BUF_SIZE + o) % BUF_SIZE == o
  {
  }

  lemma ReadOutConcat(mem: seq<byte>, first: nat, from: nat, n: nat, k: nat)
    requires |mem| == RING
    ensures ReadOut(mem, first, from, n) + ReadOut(mem, first, from + n, k) == ReadOut(mem, first, from, n + k)
  {
    hide Cell;
    var x, y := ReadOut(mem, first, from, n) + ReadOut(mem, first, from + n, k), ReadOut(mem, first, from, n + k);
    forall i | 0 <= i < n + k
      ensures x[i] == y[i]
    {
      assert i >= n ==> from + n + (i - n) == from + i;
    }
  }

  lemma FlatAppend(chain: seq<seq<byte>>, q: seq<byte>)
    ensures Flat(chain + [q]) == Flat(chain) + q
  {
    assert (chain + [q])[..|chain|] == chain;
  }

  lemma {:induction false} FlatPrefix(chain: seq<seq<byte>>, i: nat)
    requires i <= |chain|
    ensures |Flat(chain[..i])| <= |Flat(chain)|
    decreases |chain| - i
  {
    if i < |chain| {
      FlatPrefix(chain, i + 1);
      assert chain[..i + 1][..i] == chain[..i];
    } else {
      assert chain[..i] == chain;
    }
  }

  lemma LinksMonotone(a: nat, b: nat)
    requires a <= b
    ensures Links(a) <= Links(b)
  {
  }

  lemma NothingStored(mem: seq<byte>, start: nat, len: nat)
    requires |mem| == RING
    ensures Stored(mem, start, [], 0, 0) && Untouched(mem, mem, start, len)
  {
  }

  lemma SlotsPair(start: nat, d: nat, i: nat)
    requires d < i + DESCRIPTORS && i < d + DESCRIPTORS
    ensures Slot(start, d) == Slot(start, i) <==> d == i
  {
  }

  lemma SlotInRound(start: nat, i: nat)
    ensures Slot(start, i % DESCRIPTORS) == Slot(start, i)
  {
  }

  /** Any four descriptors in a row are different, and the fifth is the first again. */
  lemma SlotsDiffer(start: nat, i: nat)
    ensures forall d: nat | d < i + DESCRIPTORS && i < d + DESCRIPTORS :: Slot(start, d) == Slot(start, i) <==> d == i
    ensures i >= DESCRIPTORS ==> exists d: nat :: d < DESCRIPTORS && Slot(start, d) == Slot(start, i)
  {
    hide Slot;
    forall d: nat | d < i + DESCRIPTORS && i < d + DESCRIPTORS
      ensures Slot(start, d) == Slot(start, i) <==> d == i
    {
      SlotsPair(start, d, i);
    }
    SlotInRound(start, i);
  }

  lemma SlotsMove(start: nat, n: nat, d: nat)
    ensures Slot(start + n, d) == Slot(start, n + d)
  {
  }

  /** Gathering the next frame, right behind one that was handed over, leaves that one in the ring
      when both fit. */
  lemma NextFrameApart(before: seq<byte>, after: seq<byte>, start: nat, first: nat, second: nat)
    requires first > 0 && second > 0 && Links(first) + 1 + Links(second) + 1 <= DESCRIPTORS
    requires Untouched(before, after, start + Links(first) + 1, second)
    ensures ReadOut(after, start, 0, first) == ReadOut(before, start, 0, first)
  {
    hide ReadOut;
    forall i | 0 <= i < first
      ensures ReadOut(after, start, 0, first)[i] == ReadOut(before, start, 0, first)[i]
    {
      ByteApart(before, after, start, first, second, i);
    }
  }

  lemma ByteApart(before: seq<byte>, after: seq<byte>, start: nat, first: nat, second: nat, i: nat)
    requires i < first && second > 0 && Links(first) + 1 + Links(second) + 1 <= DESCRIPTORS
    requires Untouched(before, after, start + Links(first) + 1, second)
    ensures ReadOut(after, start, 0, first)[i] == ReadOut(before, start, 0, first)[i]
  {
    var d, o := i / BUF_SIZE, i % BUF_SIZE;
    var around := DESCRIPTORS - (Links(first) + 1) + d;
    BehindFrame(start, Links(first) + 1, d, o);
    LinksLast(second);
    assert d <= Links(first);
    assert around * BUF_SIZE + o >= second;
    assert after[Cell(start + Links(first) + 1, around, o)] == before[Cell(start + Links(first) + 1, around, o)];
  }

  /** Going round the ring behind a frame leads to its own buffers. */
  lemma BehindFrame(start: nat, n: nat, d: nat, o: nat)
    requires d < n <= DESCRIPTORS
    ensures Cell(start + n, DESCRIPTORS - n + d, o) == Cell(start, d, o)
  {
  }

  /** How much of the buffer `d` links away a frame uses. */
  function UsedSize(len: nat, d: nat): int {
    if d < Links(len) then BUF_SIZE else len - d * BUF_SIZE
  }

  lemma UsedSizeFits(len: nat, d: nat)
    requires len > 0 && d <= Links(len)
    ensures 0 < UsedSize(len, d) <= BUF_SIZE
  {
  }

  /** How many descriptors the hardware layer programs for a frame. */
  function BufferCount(len: nat): nat {
    if len > BUF_SIZE then len / BUF_SIZE + (if len % BUF_SIZE != 0 then 1 else 0) else 1
  }

  /** It is the number of buffers the gathering filled. */
  lemma CountMatchesLinks(len: nat)
    requires len > 0
    ensures BufferCount(len) == Links(len) + 1
  {
  }

  /** A gathered frame that fits in the ring is there to be read out, byte for byte. */
  lemma StoredReadsBack(mem: seq<byte>, start: nat, flat: seq<byte>, d: nat, off: nat)
    requires Stored(mem, start, flat, d, off) && (d > 0 ==> off > 0) && |flat| <= RING
    ensures ReadOut(mem, start, 0, |flat|) == flat
  {
    var r := ReadOut(mem, start, 0, |flat|);
    forall p | 0 <= p < |flat|
      ensures r[p] == flat[p]
    {
      var dd, o := p / BUF_SIZE, p % BUF_SIZE;
      assert mem[Cell(start, dd, o)] == flat[dd * BUF_SIZE + o];
    }
  }

  /** A longer frame, which the gathering accepts when every descriptor is free, overwrites its own
      beginning: the first byte of the ring is then that of a later round. */
  lemma TooLongOverwrites(mem: seq<byte>, start: nat, flat: seq<byte>, d: nat, off: nat)
    requires Stored(mem, start, flat, d, off) && off > 0 && |flat| > RING
    ensures var round := d / DESCRIPTORS * DESCRIPTORS;
      && 0 < round * BUF_SIZE < |flat|
      && ReadOut(mem, start, 0, |flat|)[0] == flat[round * BUF_SIZE]
  {
    hide ReadOut;
    var round := d / DESCRIPTORS * DESCRIPTORS;
    RoundOf(d);
    SlotRepeats(start, round);
    FirstByte(mem, start, |flat|);
    assert Cell(start, round, 0) == Cell(start, 0, 0);
    assert round <= d < round + DESCRIPTORS && 0 < BUF_SIZE && round * BUF_SIZE + 0 < |flat|;
    assert mem[Cell(start, round, 0)] == flat[round * BUF_SIZE + 0];
  }

  lemma RoundOf(d: nat)
    ensures var round := d / DESCRIPTORS * DESCRIPTORS;
      round <= d < round + DESCRIPTORS && round % DESCRIPTORS == 0 && (d >= DESCRIPTORS ==> round > 0)
  {
  }

  lemma SlotRepeats(start: nat, round: nat)
    requires round % DESCRIPTORS == 0
    ensures Slot(start, round) == Slot(start, 0)
  {
  }

  lemma FirstByte(mem: seq<byte>, start: nat, len: nat)
    requires |mem| == RING && len > 0
    ensures ReadOut(mem, start, 0, len)[0] == mem[Cell(start, 0, 0)]
  {
  }

  /** A ring of zeros holds what the gathering leaves of a long frame that begins with a one. */
  lemma ZerosStored(start: nat, d: nat, off: nat)
    requires 0 < off <= BUF_SIZE && d * BUF_SIZE + off > RING
    ensures Stored(seq(RING, _ => 0), start, [1] + seq(d * BUF_SIZE + off - 1, _ => 0), d, off)
  {
    var mem, flat := seq(RING, _ => 0), [1] + seq(d * BUF_SIZE + off - 1, _ => 0);
    assert d >= DESCRIPTORS;
    forall dd: nat, o: nat {:trigger Cell(start, dd, o)} |
      dd <= d < dd + DESCRIPTORS && o < BUF_SIZE && dd * BUF_SIZE + o < |flat|
      ensures mem[Cell(start, dd, o)] == flat[dd * BUF_SIZE + o]
    {
      assert dd >= 1 && dd * BUF_SIZE + o >= 1;
    }
  }

  /** Every content of a length is read back from the ring as it was gathered. */
  ghost predicate AllReadBack(len: nat) {
    forall mem, start, flat, d, off | Stored(mem, start, flat, d, off) && (d > 0 ==> off > 0) && |flat| == len ::
      ReadOut(mem, start, 0, len) == flat
  }

  /** That is so exactly up to the size of the ring. */
  lemma ReadsBackIff(len: nat)
    ensures AllReadBack(len) <==> len <= RING
  {
    hide ReadOut;
    if len <= RING {
      forall mem, start, flat, d, off | Stored(mem, start, flat, d, off) && (d > 0 ==> off > 0) && |flat| == len
        ensures ReadOut(mem, start, 0, len) == flat
      {
        StoredReadsBack(mem, start, flat, d, off);
      }
    } else {
      LongNotReadBack(len);
    }
  }

  lemma LongNotReadBack(len: nat)
    requires len > RING
    ensures !AllReadBack(len)
  {
    hide Stored, ReadOut;
    var d := Links(len);
    var off := len - d * BUF_SIZE;
    LinksLast(len);
    var mem, flat := seq(RING, _ => 0), [1] + seq(len - 1, _ => 0);
    ZerosStored(0, d, off);
    TooLongOverwrites(mem, 0, flat, d, off);
    assert flat[d / DESCRIPTORS * DESCRIPTORS * BUF_SIZE] == 0;
    assert ReadOut(mem, 0, 0, len) != flat;
  }

  lemma LinksLast(len: nat)
    requires len > 0
    ensures 0 < len - Links(len) * BUF_SIZE <= BUF_SIZE
  {
  }

  /** Such a frame does pass: on a free ring the gathering accepts it, and it cannot be read back. */
  method TooLongAccepted(len: nat) returns (status: Status, ring: Ring)
    requires len > RING
    ensures status == Ok && fresh(ring) && ring.Valid()
    ensures ReadOut(ring.mem[..], 0, 0, len) != [1] + seq(len - 1, _ => 0)
  {
    hide Stored, ReadOut, Untouched, Links;
    ring := new Ring(0);
    var frame := [1] + seq(len - 1, _ => 0);
    ghost var flat: seq<byte> := frame;
    OneChain(frame);
    var n;
    status, n := ring.Transmit(0, [frame]);
    LinksLast(len);
    TooLongOverwrites(ring.mem[..], 0, flat, Links(len), len - Links(len) * BUF_SIZE);
    assert flat[Links(len) / DESCRIPTORS * DESCRIPTORS * BUF_SIZE] == 0;
  }

  lemma OneChain(q: seq<byte>)
    ensures Flat([q]) == q
  {
    FlatAppend([], q);
    assert [] + [q] == [q];
  }

  /** Gathering a chain and scattering the ring into any other segmentation of the same total
      length gives the same bytes. */
  method Loopback(ring: Ring, start: nat, chain: seq<seq<byte>>, lens: seq<nat>)
    returns (sent: bool, received: seq<array<byte>>)
    requires ring.Valid() && Sum(lens) == |Flat(chain)| <= RING
    modifies ring.mem, ring.own, ring.size
    ensures sent <==>
      && chain != [] && Flat(chain) != []
      && forall d | 0 <= d <= Links(|Flat(chain)|) :: !old(ring.own[Slot(start, d)])
    ensures sent ==> |received| == |lens| && Flat(Contents(received)) == Flat(chain)
  {
    hide Stored, Untouched;
    received := [];
    var status, len := ring.Transmit(start, chain);
    sent := false;
    if status == Ok && chain != [] {
      StoredReadsBack(ring.mem[..], start, Flat(chain), Links(len), len - Links(len) * BUF_SIZE);
      var next;
      assert !ring.own[Slot(start, 0)];
      sent, next := ring.TransmitFrame(start, len);
      if sent {
        received := ring.Receive(start, Some(lens), next - start);
      }
    }
  }
}
