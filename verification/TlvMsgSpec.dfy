// lib/core/ogs-tlv-msg.c without pointers: how a message struct is walked along its descriptor
// tree to build a forest, and how parsed elements find their way back into a struct.
module TlvMsgSpec {
  import opened Prelude
  import opened TlvSpec

  // The plain TLV field types; the signed ones are built and parsed like the unsigned ones.
  datatype Kind = Num(size: nat) | FixedStr | VarStr | Null

  // ogs_tlv_desc_t.  A More descriptor makes the field before it a repeated one.
  datatype Desc =
    | Leaf(kind: Kind, type_: nat, length: nat, instance: nat, vsize: nat)
    | More(length: nat)
    | Compound(type_: nat, instance: nat, vsize: nat, kids: seq<Desc>)
  {
    function Type(): nat { if More? then 0 else type_ }
    function Instance(): nat { if More? then 0 else instance }
    function Vsize(): nat { if More? then 0 else vsize }
  }

  // sizeof(ogs_tlv_presence_t)
  const PRESENCE := 8

  datatype Val = Int(n: nat) | Octets(data: seq<Byte>)

  // The memory of a message struct.  A field is named by the address of its presence word; the
  // members of a compound start behind its presence word.  What was never written is zero.
  datatype Msg = Msg(presence: map<int, nat>, values: map<int, Val>) {
    predicate Present(a: int) {
      a in presence && presence[a] != 0
    }

    function Int(a: int): nat {
      if a in values && values[a].Int? then values[a].n else 0
    }

    function Data(a: int): seq<Byte> {
      if a in values && values[a].Octets? then values[a].data else []
    }

    function Mark(a: int): Msg {
      this.(presence := presence[a := 1])
    }

    function Store(a: int, v: Val): Msg {
      this.(values := values[a := v])
    }
  }

  const ZEROED := Msg(map[], map[])

  // The descriptor at place i describes a repeated field.
  predicate Repeated(ds: seq<Desc>, i: nat) {
    i + 1 < |ds| && ds[i + 1].More?
  }

  // ---------- Building ----------

  // tlv_add_leaf: the bytes of a field, or nothing when it cannot be added.
  function LeafBytes(d: Desc, m: Msg, a: int): Option<seq<Byte>>
    requires d.Leaf?
  {
    match d.kind
    case Num(k) => Some(BigEndian(m.Int(a), k))
    case FixedStr => Some(if d.length <= |m.Data(a)| then m.Data(a)[..d.length] else m.Data(a))
    case VarStr => if m.Data(a) == [] then None else Some(m.Data(a))
    case Null => Some([])
  }

  // vsize * n
  function Room(vsize: nat, n: nat): nat {
    if n == 0 then 0 else vsize + Room(vsize, n - 1)
  }

  lemma {:induction false} RoomIs(vsize: nat, n: nat)
    ensures Room(vsize, n) == vsize * n
    decreases n
  {
    if n == 0 {
    } else {
      RoomIs(vsize, n - 1);
      assert vsize * n == vsize + vsize * (n - 1);
    }
  }

  // How many copies of its field a descriptor stands for, and how many descriptors that takes.
  function Copies(ds: seq<Desc>, i: nat): nat { if Repeated(ds, i) then ds[i + 1].length else 1 }

  function Width(ds: seq<Desc>, i: nat): nat { if Repeated(ds, i) then 2 else 1 }

  // A field to be built: the place of its descriptor, and its address.
  datatype Field = Field(i: nat, a: int)

  predicate InTable(ds: seq<Desc>, fs: seq<Field>) {
    forall q :: 0 <= q < |fs| ==> fs[q].i < |ds|
  }

  // The fields the loop of tlv_add_compound still builds when it has come to address a, and up to
  // k copies of the field at place i are still to be looked at: those present without a gap, and
  // then those of the descriptors behind it.
  function Fields(ds: seq<Desc>, i: nat, k: nat, m: Msg, a: int): (fs: seq<Field>)
    ensures InTable(ds, fs)
    decreases |ds| - i, k
  {
    if i >= |ds| then []
    else if k > 0 && m.Present(a) then [Field(i, a)] + Fields(ds, i, k - 1, m, a + ds[i].Vsize())
    else Fields(ds, i + Width(ds, i), Copies(ds, i + Width(ds, i)), m, a + Room(ds[i].Vsize(), k))
  }

  // All the fields of a table whose first one is at p.
  function AllFields(ds: seq<Desc>, m: Msg, p: int): (fs: seq<Field>)
    ensures InTable(ds, fs)
  {
    Fields(ds, 0, Copies(ds, 0), m, p)
  }

  function Members(d: Desc, m: Msg, a: int): seq<Field>
    requires d.Compound?
  {
    AllFields(d.kids, m, a + PRESENCE)
  }

  function BuildOne(mode: Mode, d: Desc, m: Msg, a: int): Option<Tree>
    decreases d, 0
  {
    match d
    case Leaf(_, _, _, _, _) =>
      (match LeafBytes(d, m, a)
       case None => None
       case Some(bs) => Some(Tree(NONE, mode, d.type_, d.instance, Bytes(bs), [])))
    case More(_) => None
    case Compound(_, _, _, kids) =>
      match Build(mode, kids, m, Members(d, m, a))
      case None => None
      case Some(ts) => if ts == [] then None else Some(Tree(NONE, mode, d.type_, d.instance, Bytes([]), ts))
  }

  // One node for each field, unless one of them cannot be built.
  function Build(mode: Mode, ds: seq<Desc>, m: Msg, fs: seq<Field>): Option<seq<Tree>>
    requires InTable(ds, fs)
    decreases ds, 1, fs
  {
    if fs == [] then Some([])
    else
      match BuildOne(mode, ds[fs[0].i], m, fs[0].a)
      case None => None
      case Some(t) =>
        match Build(mode, ds, m, fs[1..])
        case None => None
        case Some(ts) => Some([t] + ts)
  }

  // The nodes that building takes until it is done or fails: it gives none of them back itself.
  ghost function SpentOne(mode: Mode, d: Desc, m: Msg, a: int): nat
    decreases d, 0
  {
    match d
    case Leaf(_, _, _, _, _) => if LeafBytes(d, m, a).None? then 0 else 1
    case More(_) => 0
    case Compound(_, _, _, kids) => 1 + Spent(mode, kids, m, Members(d, m, a))
  }

  ghost function Spent(mode: Mode, ds: seq<Desc>, m: Msg, fs: seq<Field>): nat
    requires InTable(ds, fs)
    decreases ds, 1, fs
  {
    if fs == [] then 0
    else
      SpentOne(mode, ds[fs[0].i], m, fs[0].a) + if BuildOne(mode, ds[fs[0].i], m, fs[0].a).None? then 0 else Spent(mode, ds, m, fs[1..])
  }

  // ogs_tlv_build_msg
  ghost function BuildMsg(mode: Mode, ds: seq<Desc>, m: Msg): Option<seq<Byte>> {
    if ds == [] then Some([])
    else
      match Build(mode, ds, m, AllFields(ds, m, 0))
      case None => None
      case Some(ts) => if ts == [] then None else Some(Encode(ts))
  }

  // ---------- Parsing ----------

  // Parsing may also stop the program, when a message holds more copies of a field than fit.
  datatype Parsed = Done(msg: Msg) | Failed(msg: Msg) | Aborted

  // tlv_find_desc_by_type_inst, from place i on, with the offset of its field.
  function Find(ds: seq<Desc>, type_: nat, instance: nat, nth: nat, i: nat, offset: int): (r: Option<(nat, int)>)
    requires i <= |ds|
    ensures r.Some? ==> r.value.0 < |ds|
    decreases |ds| - i
  {
    if i == |ds| then None
    else
      var hit := ds[i].Type() == type_ && ds[i].Instance() == instance;
      if hit && nth == 0 then Some((i, offset))
      else Find(ds, type_, instance, if hit then nth - 1 else nth, i + 1, offset + Advance(ds, i))
  }

  // The room the parser counts for a descriptor: one copy for the field, the rest at its More.
  function Advance(ds: seq<Desc>, i: nat): int
    requires i < |ds|
  {
    if !ds[i].More? then ds[i].Vsize()
    else if i == 0 then 0
    else Room(ds[i - 1].Vsize(), ds[i].length) - ds[i - 1].Vsize()
  }

  function Slice(mem: seq<Byte>, at: nat, n: nat): seq<Byte> {
    seq<Byte>(n, i requires 0 <= i < n => ByteAt(mem, at + i))
  }

  // tlv_parse_leaf
  function ParseLeaf(mem: seq<Byte>, d: Desc, e: Elem, msg: Msg, a: int): Option<Msg>
    requires d.Leaf?
  {
    match d.kind
    case Num(k) =>
      if e.length < 1 || e.length > k then None else Some(msg.Store(a, Int(Number(mem, e.value, k))))
    case FixedStr =>
      if e.length != d.length then None else Some(msg.Store(a, Octets(Slice(mem, e.value, e.length))))
    case VarStr => Some(msg.Store(a, Octets(Slice(mem, e.value, e.length))))
    case Null => if e.length != 0 then None else Some(msg)
  }

  // The first of n copies that is not present yet.
  function FirstFree(msg: Msg, a: int, vsize: nat, n: nat): Option<int>
    decreases n
  {
    if n == 0 then None else if !msg.Present(a) then Some(a) else FirstFree(msg, a + vsize, vsize, n - 1)
  }

  // Where the element goes that belongs to the field at place i, whose first copy is at a.
  function Spot(ds: seq<Desc>, i: nat, msg: Msg, a: int): Option<int>
    requires i < |ds|
  {
    if Repeated(ds, i) then FirstFree(msg, a, ds[i].Vsize(), ds[i + 1].length) else Some(a)
  }

  function Key(type_: nat, instance: nat): nat { type_ * 256 + instance }

  // OGS_TLV_MAX_CHILD_DESC
  const MAX_CHILDREN := 128

  // What tlv_parse_compound finds out about an element before it parses it: no room to count it,
  // no descriptor, no copy free, or the place of its descriptor and its address.
  datatype Place =
    | Full
    | Unknown(counts: map<nat, nat>)
    | NoRoom
    | There(i: nat, at: int, counts: map<nat, nat>)

  function Locate(ds: seq<Desc>, e: Elem, msg: Msg, p: int, counts: map<nat, nat>): (r: Place)
    ensures r.There? ==> r.i < |ds|
  {
    var key := Key(e.type_, e.instance);
    if key !in counts && |counts| == MAX_CHILDREN then Full
    else
      var c := if key in counts then counts[key] else 0;
      match Find(ds, e.type_, e.instance, c, 0, 0)
      case None => Unknown(counts[key := c])
      case Some((i, offset)) =>
        match Spot(ds, i, msg, p + offset)
        case None => NoRoom
        case Some(at) => There(i, at, counts[key := if Repeated(ds, i) then c else c + 1])
  }

  // The loop of tlv_parse_compound over the elements of one block; the struct starts at p.
  function ParseAll(mode: Mode, mem: seq<Byte>, ds: seq<Desc>, es: seq<Elem>, msg: Msg, p: int, counts: map<nat, nat>): Parsed
    decreases ds, 1, es
  {
    if es == [] then Done(msg)
    else
      match Locate(ds, es[0], msg, p, counts)
      case Full => Failed(msg)
      case Unknown(c) => ParseAll(mode, mem, ds, es[1..], msg, p, c)
      case NoRoom => Aborted
      case There(i, at, c) =>
        Then(ParseOne(mode, mem, ds[i], es[0], msg, at), m => ParseAll(mode, mem, ds, es[1..], m, p, c))
  }

  function Then(r: Parsed, f: Msg -> Parsed): Parsed {
    if r.Done? then f(r.msg) else r
  }

  function ParseOne(mode: Mode, mem: seq<Byte>, d: Desc, e: Elem, msg: Msg, a: int): Parsed
    decreases d, 0
  {
    match d
    case Leaf(_, _, _, _, _) =>
      (match ParseLeaf(mem, d, e, msg, a)
       case None => Failed(msg)
       case Some(m) => Done(m.Mark(a)))
    case More(_) => Aborted
    case Compound(_, _, _, kids) =>
      match ParseBlock(mem, e.value, e.length, mode)
      case None => Failed(msg)
      case Some(es) => Then(ParseAll(mode, mem, kids, es, msg, a + PRESENCE, map[]), (m: Msg) => Done(m.Mark(a)))
  }

  // The nodes that parsing takes until it ends: one for each element of each block it reads.
  ghost function Asked(mode: Mode, mem: seq<Byte>, ds: seq<Desc>, es: seq<Elem>, msg: Msg, p: int, counts: map<nat, nat>): nat
    decreases ds, 1, es
  {
    if es == [] then 0
    else
      match Locate(ds, es[0], msg, p, counts)
      case Full => 0
      case Unknown(c) => Asked(mode, mem, ds, es[1..], msg, p, c)
      case NoRoom => 0
      case There(i, at, c) =>
        var r := ParseOne(mode, mem, ds[i], es[0], msg, at);
        AskedOne(mode, mem, ds[i], es[0], msg, at) + if r.Done? then Asked(mode, mem, ds, es[1..], r.msg, p, c) else 0
  }

  ghost function AskedOne(mode: Mode, mem: seq<Byte>, d: Desc, e: Elem, msg: Msg, a: int): nat
    decreases d, 0
  {
    match d
    case Compound(_, _, _, kids) =>
      |Scan(mem, e.value, e.End(), mode)|
      + (match ParseBlock(mem, e.value, e.length, mode)
         case None => 0
         case Some(es) => Asked(mode, mem, kids, es, msg, a + PRESENCE, map[]))
    case _ => 0
  }

  ghost function AskedMsg(mode: Mode, mem: seq<Byte>, length: nat, ds: seq<Desc>, msg: Msg): nat {
    |Scan(mem, 0, length, mode)|
    + match ParseBlock(mem, 0, length, mode)
      case None => 0
      case Some(es) => Asked(mode, mem, ds, es, msg, 0, map[])
  }

  // ogs_tlv_parse_msg on a packet of the given length at the start of mem
  function ParseMsg(mode: Mode, mem: seq<Byte>, length: nat, ds: seq<Desc>, msg: Msg): Parsed {
    match ParseBlock(mem, 0, length, mode)
    case None => Failed(msg)
    case Some(es) => ParseAll(mode, mem, ds, es, msg, 0, map[])
  }
}
