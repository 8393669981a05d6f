/** Memory: a fixed base below a write cache. Resetting the cache brings the base back. */
module Memory {
  import opened BitVectors

  type Overlay = map<int, Byte>

  /** The contents of every address when nothing is cached. */
  type Base = int -> Byte

  function ByteAt(base: Base, m: Overlay, b: int): Byte {
    if b in m then m[b] else base(b)
  }

  function ReadBytes(base: Base, m: Overlay, addr: int, n: nat): (r: seq<Byte>)
    ensures |r| == n
    ensures forall i :: 0 <= i < n ==> r[i] == ByteAt(base, m, addr + i)
  {
    seq(n, i requires 0 <= i => ByteAt(base, m, addr + i))
  }

  /** Address b is one of the n addresses from addr on. */
  predicate Spans(addr: int, n: nat, b: int) {
    addr <= b < addr + n
  }

  function WriteBytes(m: Overlay, addr: int, data: seq<Byte>): (m': Overlay)
    ensures forall b :: b in m' <==> b in m || Spans(addr, |data|, b)
    ensures forall b :: b in m' ==> m'[b] == if Spans(addr, |data|, b) then data[b - addr] else m[b]
  {
    m + map b | addr <= b < addr + |data| && Spans(addr, |data|, b) :: data[b - addr]
  }

  lemma ByteAfterWrite(base: Base, m: Overlay, addr: int, data: seq<Byte>, b: int)
    ensures ByteAt(base, WriteBytes(m, addr, data), b) ==
            if Spans(addr, |data|, b) then data[b - addr] else ByteAt(base, m, b)
  {
  }

  // ----- Sequences of writes

  datatype MemWrite = MemWrite(addr: int, data: seq<Byte>)

  function ApplyMemWrites(m: Overlay, ws: seq<MemWrite>): Overlay {
    if ws == [] then m
    else WriteBytes(ApplyMemWrites(m, ws[..|ws| - 1]), ws[|ws| - 1].addr, ws[|ws| - 1].data)
  }

  predicate Within(w: MemWrite, b: int) {
    Spans(w.addr, |w.data|, b)
  }

  /** Two writes put the same bytes at the addresses that they share. */
  ghost predicate MemAgree(w: MemWrite, w': MemWrite) {
    forall b :: Within(w, b) && Within(w', b) ==> w.data[b - w.addr] == w'.data[b - w'.addr]
  }

  ghost predicate AllMemAgree(ws: seq<MemWrite>) {
    forall i, j :: 0 <= i < j < |ws| ==> MemAgree(ws[i], ws[j])
  }

  lemma AllMemAgreePrefix(ws: seq<MemWrite>)
    requires AllMemAgree(ws) && ws != []
    ensures AllMemAgree(ws[..|ws| - 1])
  {
    var init := ws[..|ws| - 1];
    forall i, j | 0 <= i < j < |init| ensures MemAgree(init[i], init[j]) {
      assert MemAgree(ws[i], ws[j]);
    }
  }

  lemma {:induction false} AgreeingBytesStay(m: Overlay, ws: seq<MemWrite>, k: nat, b: int)
    requires AllMemAgree(ws) && k < |ws| && Within(ws[k], b)
    ensures b in ApplyMemWrites(m, ws) && ApplyMemWrites(m, ws)[b] == ws[k].data[b - ws[k].addr]
  {
    var n := |ws| - 1;
    if k < n {
      AllMemAgreePrefix(ws);
      AgreeingBytesStay(m, ws[..n], k, b);
      assert MemAgree(ws[k], ws[n]);
    }
  }

  /** After writes that agree with each other, the bytes of each of them can be read back. */
  lemma AgreeingBytesReadBack(base: Base, m: Overlay, ws: seq<MemWrite>, k: nat)
    requires AllMemAgree(ws) && k < |ws|
    ensures ReadBytes(base, ApplyMemWrites(m, ws), ws[k].addr, |ws[k].data|) == ws[k].data
  {
    forall i | 0 <= i < |ws[k].data|
      ensures ReadBytes(base, ApplyMemWrites(m, ws), ws[k].addr, |ws[k].data|)[i] == ws[k].data[i]
    {
      AgreeingBytesStay(m, ws, k, ws[k].addr + i);
    }
  }

  lemma {:induction false} UntouchedByteStays(m: Overlay, ws: seq<MemWrite>, b: int)
    requires forall k :: 0 <= k < |ws| ==> !Within(ws[k], b)
    ensures b in ApplyMemWrites(m, ws) <==> b in m
    ensures b in m ==> ApplyMemWrites(m, ws)[b] == m[b]
  {
    if ws != [] {
      var n := |ws| - 1;
      forall k | 0 <= k < n ensures !Within(ws[..n][k], b) {
        assert ws[..n][k] == ws[k];
      }
      UntouchedByteStays(m, ws[..n], b);
      assert !Within(ws[n], b);
    }
  }
}
