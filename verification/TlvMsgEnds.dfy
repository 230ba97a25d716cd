// lib/core/ogs-tlv-msg.c: how building and parsing a message may end.
module TlvMsgEnds {
  import opened Prelude
  import opened TlvSpec
  import opened TlvMsgSpec
  import opened TlvMsgProof
  import opened TlvMsgGaps

  // A message that is built and parsed comes back with every field it has and no other if and
  // only if its repeated fields have no gaps.
  lemma ComesBack(mode: Mode, mem: seq<Byte>, ds: seq<Desc>, m: Msg)
    requires WellFormed(ds) && ds != [] && Valued(ds, m, AllFields(ds, m, 0))
    requires BuildMsg(mode, ds, m).Some? && Fits(mode, Build(mode, ds, m, AllFields(ds, m, 0)).value)
    requires Holds(mem, 0, BuildMsg(mode, ds, m).value)
    ensures ParseMsg(mode, mem, |BuildMsg(mode, ds, m).value|, ds, ZEROED) == Done(Only(m, Held(ds, 0, Copies(ds, 0), m, 0)))
            <==> GapFree(ds, 0, Copies(ds, 0), m, 0)
  {
    RoundTripMsg(mode, mem, ds, m);
    GapFreeReach(ds, 0, Copies(ds, 0), m, 0);
    var a, b := Reach(ds, m, AllFields(ds, m, 0)), Held(ds, 0, Copies(ds, 0), m, 0);
    assert Only(m, a).presence.Keys == a && Only(m, b).presence.Keys == b;
  }

  // A field without a value, of which there is room for three copies.
  const THREE := [Leaf(Null, 1, 0, 0, 16), More(3)]

  lemma ThreeFormed()
    ensures WellFormed(THREE) && |THREE| == 2 && THREE[0] == Leaf(Null, 1, 0, 0, 16) && THREE[1] == More(3)
    ensures Repeated(THREE, 0) && Copies(THREE, 0) == 3
  {
    assert RegularAt(THREE, 1);
    assert WellFormedOne(THREE[0]) && WellFormedOne(THREE[1]);
  }

  // The second of the three copies is missing.
  ghost predicate Holed(m: Msg) {
    m.Present(0) && !m.Present(16) && m.Present(32) && 0 !in m.values
  }

  lemma HoledFields(m: Msg)
    requires Holed(m)
    ensures AllFields(THREE, m, 0) == [Field(0, 0)] && !GapFree(THREE, 0, 3, m, 0)
    ensures 32 in Held(THREE, 0, 3, m, 0)
  {
    ThreeFormed();
    assert Room(16, 2) == 16 + Room(16, 1) && Room(16, 1) == 16 + Room(16, 0);
    assert Fields(THREE, 0, 2, m, 16) == Fields(THREE, 2, Copies(THREE, 2), m, 48) == [];
    assert !Absent(m, 16, 2, 16) by { assert !Absent(m, 16, 1, 32); }
    assert 32 in Held(THREE, 0, 1, m, 32);
    assert 32 in Held(THREE, 0, 2, m, 16);
  }

  // Then the third one does not come back, in any format.
  lemma GapLost(mode: Mode, m: Msg)
    requires Holed(m)
    ensures var sent := BuildMsg(mode, THREE, m);
      WellFormed(THREE) && sent.Some? && ParseMsg(mode, sent.value, |sent.value|, THREE, ZEROED) == Done(Only(m, {0}))
    ensures 32 in Held(THREE, 0, 3, m, 0)
  {
    hide WellFormed, Encode, ParseMsg, Fields, Only;
    ThreeFormed();
    HoledFields(m);
    var fs := AllFields(THREE, m, 0);
    var t := Tree(NONE, mode, 1, 0, Bytes([]), []);
    assert fs[0] == Field(0, 0) && fs[1..] == [] && BuildOne(mode, THREE[0], m, 0) == Some(t);
    assert Build(mode, THREE, m, fs) == Some([t] + []) && [t] + [] == [t];
    assert FitsOne(mode, t) && ValuedOne(THREE[0], m, 0);
    assert Reach(THREE, m, fs) == ReachOne(THREE[0], m, 0) + {} == {0};
    RoundTripMsg(mode, Encode([t]), THREE, m);
  }

  // A build that fails gives no node back, and has taken none only when its first field is a
  // variable string without bytes.
  lemma FailureLeaks(mode: Mode, ds: seq<Desc>, m: Msg, fs: seq<Field>)
    requires InTable(ds, fs) && Build(mode, ds, m, fs).None? && forall q :: 0 <= q < |fs| ==> !ds[fs[q].i].More?
    ensures fs != []
    ensures Spent(mode, ds, m, fs) == 0 <==> ds[fs[0].i].Leaf? && ds[fs[0].i].kind == VarStr && m.Data(fs[0].a) == []
  {
  }
}
