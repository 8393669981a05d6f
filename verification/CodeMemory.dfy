/** Memory without cache reset: the code bytes of all frames are written once, before the first
    frame is checked, and only the first frame at each address counts. */
module CodeMemory {
  import opened Trace
  import opened Memory

  function CodeWrite(sf: StdFrame): MemWrite {
    MemWrite(sf.address, sf.code)
  }

  /** An earlier frame has the same address. */
  predicate SeenBefore(trace: seq<Frame>, n: nat, address: int)
    requires n <= |trace|
  {
    exists i :: 0 <= i < n && trace[i].Std? && trace[i].sf.address == address
  }

  /** The code of the first frame at each address, in trace order. */
  function FirstWrites(trace: seq<Frame>): seq<MemWrite> {
    if trace == [] then []
    else
      var n := |trace| - 1;
      FirstWrites(trace[..n]) +
      (if trace[n].Std? && !SeenBefore(trace, n, trace[n].sf.address) then [CodeWrite(trace[n].sf)] else [])
  }

  function AllWrites(trace: seq<Frame>): seq<MemWrite> {
    if trace == [] then []
    else
      var n := |trace| - 1;
      AllWrites(trace[..n]) + (if trace[n].Std? then [CodeWrite(trace[n].sf)] else [])
  }

  function TotalSize(ws: seq<MemWrite>): nat {
    if ws == [] then 0 else TotalSize(ws[..|ws| - 1]) + |ws[|ws| - 1].data|
  }

  lemma SeenBeforeStep(trace: seq<Frame>, k: nat)
    requires k < |trace|
    ensures forall a :: SeenBefore(trace, k + 1, a) <==>
              SeenBefore(trace, k, a) || (trace[k].Std? && trace[k].sf.address == a)
  {
  }

  lemma FirstWritesStep(trace: seq<Frame>, k: nat)
    requires k < |trace|
    ensures var ws, ws' := FirstWrites(trace[..k]), FirstWrites(trace[..k + 1]);
            if trace[k].Std? && !SeenBefore(trace, k, trace[k].sf.address)
            then && ApplyMemWrites(map[], ws') ==
                    WriteBytes(ApplyMemWrites(map[], ws), trace[k].sf.address, trace[k].sf.code)
                 && TotalSize(ws') == TotalSize(ws) + |trace[k].sf.code|
            else ws' == ws
  {
    var pre := trace[..k + 1];
    assert pre[..k] == trace[..k];
    if trace[k].Std? {
      assert SeenBefore(pre, k, trace[k].sf.address) <==> SeenBefore(trace, k, trace[k].sf.address) by {
        assert forall i :: 0 <= i < k ==> pre[i] == trace[i];
      }
    }
    var ws, ws' := FirstWrites(trace[..k]), FirstWrites(trace[..k + 1]);
    if ws' != ws {
      assert ws'[..|ws'| - 1] == ws;
    }
  }

  // ----- What can be read back

  ghost predicate InTrace(trace: seq<Frame>, sf: StdFrame) {
    Std(sf) in trace
  }

  lemma {:induction false} AllWritesAreTheFrames(trace: seq<Frame>, w: MemWrite)
    ensures w in AllWrites(trace) <==> exists sf :: InTrace(trace, sf) && w == CodeWrite(sf)
  {
    if trace != [] {
      var n := |trace| - 1;
      AllWritesAreTheFrames(trace[..n], w);
      assert trace == trace[..n] + [trace[n]];
      if exists sf :: InTrace(trace, sf) && w == CodeWrite(sf) {
        var sf :| InTrace(trace, sf) && w == CodeWrite(sf);
        assert InTrace(trace[..n], sf) || trace[n] == Std(sf);
      }
      if exists sf :: InTrace(trace[..n], sf) && w == CodeWrite(sf) {
        var sf :| InTrace(trace[..n], sf) && w == CodeWrite(sf);
        assert InTrace(trace, sf);
      }
      if trace[n].Std? { assert InTrace(trace, trace[n].sf); }
    }
  }

  /** The first writes are code of frames, and every frame has one at its address. */
  lemma {:induction false} FirstWritesCoverAddresses(trace: seq<Frame>)
    ensures forall w :: w in FirstWrites(trace) ==> w in AllWrites(trace)
    ensures forall sf :: InTrace(trace, sf) ==> exists w :: w in FirstWrites(trace) && w.addr == sf.address
  {
    if trace != [] {
      var n := |trace| - 1;
      FirstWritesCoverAddresses(trace[..n]);
      forall sf | InTrace(trace, sf) ensures exists w :: w in FirstWrites(trace) && w.addr == sf.address {
        if InTrace(trace[..n], sf) {
          var w :| w in FirstWrites(trace[..n]) && w.addr == sf.address;
          assert w in FirstWrites(trace);
        } else {
          assert trace == trace[..n] + [trace[n]];
          assert trace[n] == Std(sf);
          if SeenBefore(trace, n, sf.address) {
            var i :| 0 <= i < n && trace[i].Std? && trace[i].sf.address == sf.address;
            assert trace[..n][i] == trace[i];
            assert InTrace(trace[..n], trace[i].sf);
            var w :| w in FirstWrites(trace[..n]) && w.addr == sf.address;
            assert w in FirstWrites(trace);
          } else {
            assert CodeWrite(sf) in FirstWrites(trace);
          }
        }
      }
    }
  }

  ghost predicate PairwiseAgree(ws: seq<MemWrite>) {
    forall w, w' :: w in ws && w' in ws ==> MemAgree(w, w')
  }

  ghost predicate SomeWithin(ws: seq<MemWrite>, b: int) {
    exists w :: w in ws && Within(w, b)
  }

  /** The bytes of w are in memory. */
  ghost predicate IsStored(m: Overlay, w: MemWrite) {
    forall b :: Within(w, b) ==> b in m && m[b] == w.data[b - w.addr]
  }

  lemma StoredWhenAgreeing(m: Overlay, ws: seq<MemWrite>, w: MemWrite)
    requires PairwiseAgree(ws) && w in ws
    ensures IsStored(ApplyMemWrites(m, ws), w)
  {
    var k :| 0 <= k < |ws| && ws[k] == w;
    forall i, j | 0 <= i < j < |ws| ensures MemAgree(ws[i], ws[j]) {
      assert ws[i] in ws && ws[j] in ws;
    }
    forall b | Within(w, b) ensures b in ApplyMemWrites(m, ws) && ApplyMemWrites(m, ws)[b] == w.data[b - w.addr] {
      AgreeingBytesStay(m, ws, k, b);
    }
  }

  lemma OnlyWrittenBytes(ws: seq<MemWrite>, b: int)
    requires !SomeWithin(ws, b)
    ensures b !in ApplyMemWrites(map[], ws)
  {
    forall k | 0 <= k < |ws| ensures !Within(ws[k], b) {
      assert ws[k] in ws;
    }
    UntouchedByteStays(map[], ws, b);
  }

  /** All frames agree on the addresses that they share, and no byte lies outside of all first writes. */
  ghost predicate CodeIsReadable(trace: seq<Frame>) {
    && PairwiseAgree(AllWrites(trace))
    && forall b :: SomeWithin(AllWrites(trace), b) ==> SomeWithin(FirstWrites(trace), b)
  }

  /** The code of every frame can be read back exactly when all frames agree on the addresses
      that they share and no frame has a byte that is outside of all first writes. */
  lemma CodeReadsBackExactly(trace: seq<Frame>)
    ensures (forall w :: w in AllWrites(trace) ==> IsStored(ApplyMemWrites(map[], FirstWrites(trace)), w))
       <==> CodeIsReadable(trace)
  {
    var all, firsts := AllWrites(trace), FirstWrites(trace);
    var m := ApplyMemWrites(map[], firsts);
    FirstWritesCoverAddresses(trace);
    if forall w :: w in all ==> IsStored(m, w) {
      forall w, w' | w in all && w' in all ensures MemAgree(w, w') {
        assert IsStored(m, w) && IsStored(m, w');
      }
      forall b | SomeWithin(all, b) ensures SomeWithin(firsts, b) {
        var w :| w in all && Within(w, b);
        assert IsStored(m, w);
        if !SomeWithin(firsts, b) { OnlyWrittenBytes(firsts, b); }
      }
    }
    if CodeIsReadable(trace) {
      forall w | w in all ensures IsStored(m, w) {
        forall b | Within(w, b) ensures b in m && m[b] == w.data[b - w.addr] {
          assert SomeWithin(all, b);
          var w' :| w' in firsts && Within(w', b);
          StoredWhenAgreeing(map[], firsts, w');
          assert MemAgree(w, w');
        }
      }
    }
  }

  /** Two frames at the same address have the same code. */
  ghost predicate SameCodeAtSameAddress(trace: seq<Frame>) {
    forall x, y :: InTrace(trace, x) && InTrace(trace, y) && x.address == y.address ==> x.code == y.code
  }

  /** When same addresses mean same code, nothing is left out but repetitions. */
  lemma FirstWritesAreAll(trace: seq<Frame>)
    requires SameCodeAtSameAddress(trace)
    ensures forall w :: w in FirstWrites(trace) <==> w in AllWrites(trace)
  {
    FirstWritesCoverAddresses(trace);
    forall w | w in AllWrites(trace) ensures w in FirstWrites(trace) {
      AllWritesAreTheFrames(trace, w);
      var sf :| InTrace(trace, sf) && w == CodeWrite(sf);
      var w' :| w' in FirstWrites(trace) && w'.addr == sf.address;
      AllWritesAreTheFrames(trace, w');
    }
  }

  /** Writes that agree with each other have the same effect in any order and number. */
  lemma SameBytesFromSameWrites(ws: seq<MemWrite>, ws': seq<MemWrite>, b: int)
    requires PairwiseAgree(ws) && forall w :: w in ws <==> w in ws'
    ensures b in ApplyMemWrites(map[], ws) <==> b in ApplyMemWrites(map[], ws')
    ensures b in ApplyMemWrites(map[], ws) ==> ApplyMemWrites(map[], ws)[b] == ApplyMemWrites(map[], ws')[b]
  {
    if SomeWithin(ws, b) {
      var w :| w in ws && Within(w, b);
      StoredWhenAgreeing(map[], ws, w);
      StoredWhenAgreeing(map[], ws', w);
    } else {
      OnlyWrittenBytes(ws, b);
      OnlyWrittenBytes(ws', b);
    }
  }

  /** When same addresses mean same code and all frames agree, leaving out repetitions is as good
      as writing every frame, and every frame can be read back. */
  lemma FirstWritesSuffice(trace: seq<Frame>)
    requires SameCodeAtSameAddress(trace) && PairwiseAgree(AllWrites(trace))
    ensures ApplyMemWrites(map[], FirstWrites(trace)) == ApplyMemWrites(map[], AllWrites(trace))
    ensures forall sf :: InTrace(trace, sf) ==> IsStored(ApplyMemWrites(map[], FirstWrites(trace)), CodeWrite(sf))
  {
    var all, firsts := AllWrites(trace), FirstWrites(trace);
    FirstWritesAreAll(trace);
    forall b ensures b in ApplyMemWrites(map[], firsts) <==> b in ApplyMemWrites(map[], all)
             ensures b in ApplyMemWrites(map[], firsts) ==> ApplyMemWrites(map[], firsts)[b] == ApplyMemWrites(map[], all)[b]
    {
      SameBytesFromSameWrites(all, firsts, b);
    }
    forall sf | InTrace(trace, sf) ensures IsStored(ApplyMemWrites(map[], firsts), CodeWrite(sf)) {
      AllWritesAreTheFrames(trace, CodeWrite(sf));
      StoredWhenAgreeing(map[], firsts, CodeWrite(sf));
    }
  }
}
