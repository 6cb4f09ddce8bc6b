/** The publisher and subscriber tables of NodeHandle_, and what negotiateTopics announces from them. */
module Slots {
  import opened Bytes
  import opened Frames
  import opened Messages
  import opened Outbox
  import opened Routing

  datatype Slot = Free | Taken(s: Setup)

  /** The id in a slot leads back to the slot: two slots have one id only if one object was registered twice. */
  predicate Own(view: seq<Slot>, base: nat, role: Role) {
    forall i :: 0 <= i < |view| && view[i].Taken? ==>
      var s := view[i].s;
      s.role == role && base <= s.id < base + |view| && view[s.id - base] == view[i]
  }

  /** The non-empty slots in order. */
  function Listing(view: seq<Slot>): (ss: seq<Setup>) {
    if view == [] then [] else
    var last := view[|view| - 1];
    Listing(view[..|view| - 1]) + (if last.Taken? then [last.s] else [])
  }

  lemma {:induction false} ListingHolds(view: seq<Slot>, s: Setup)
    ensures s in Listing(view) <==> Taken(s) in view
  {
    if view != [] {
      var init := view[..|view| - 1];
      ListingHolds(init, s);
      assert view == init + [view[|view| - 1]];
    }
  }

  /** One service object per name: what the code that fills the tables must see to. */
  predicate DistinctServices(p: seq<Slot>, q: seq<Slot>) {
    forall x <- p + q, y <- p + q :: x.Taken? && y.Taken? && SameService(x.s, y.s) ==> x == y
  }

  /** All announcements come from the tables. */
  predicate FromTables(ss: seq<Setup>, p: seq<Slot>, q: seq<Slot>) {
    forall s <- ss :: Taken(s) in p || Taken(s) in q
  }

  lemma TakenOwn(view: seq<Slot>, base: nat, role: Role, s: Setup)
    requires Own(view, base, role) && Taken(s) in view
    ensures s.role == role && base <= s.id < base + |view| && view[s.id - base] == Taken(s)
  {
    var i :| 0 <= i < |view| && view[i] == Taken(s);
  }

  /** Ids are pairwise distinct, from 100 on, and index their own slot, so whatever is announced is coherent. */
  lemma TablesAreCoherent(p: seq<Slot>, q: seq<Slot>, ss: seq<Setup>)
    requires Own(p, 100 + |q|, Pub) && Own(q, 100, Sub) && DistinctServices(p, q) && FromTables(ss, p, q)
    ensures Coherent(ss) && forall s <- ss :: s.id >= 100
  {
    forall s | s in ss ensures s.id >= 100 && (s.id >= 100 + |q| <==> Taken(s) in p) {
      if Taken(s) in p { TakenOwn(p, 100 + |q|, Pub, s); } else { TakenOwn(q, 100, Sub, s); }
    }
    forall s, t | s in ss && t in ss && s.id == t.id ensures s == t { SameIdIsSame(p, q, s, t); }
    forall s, t | s in ss && t in ss && SameService(s, t) ensures s == t {
      assert Taken(s) == Taken(t);
    }
  }

  lemma SameIdIsSame(p: seq<Slot>, q: seq<Slot>, s: Setup, t: Setup)
    requires Own(p, 100 + |q|, Pub) && Own(q, 100, Sub) && s.id == t.id
    requires Taken(s) in p || Taken(s) in q
    requires Taken(t) in p || Taken(t) in q
    ensures s == t
  {
    hide Own;
    if Taken(s) in p { TakenOwn(p, 100 + |q|, Pub, s); } else { TakenOwn(q, 100, Sub, s); }
    if Taken(t) in p { TakenOwn(p, 100 + |q|, Pub, t); } else { TakenOwn(q, 100, Sub, t); }
  }

  /** Routing agreement.  Once the server has processed one full negotiation, and whatever it was told again later,
      every id in the publisher table maps to the handler made for that slot, every subscriber slot is known under
      its id, every service proxy replies to the id of its subscriber slot, and the setup handlers are in place. */
  lemma RoutingAgreement(p: seq<Slot>, q: seq<Slot>, later: seq<Setup>, s: Setup)
    requires Own(p, 100 + |q|, Pub) && Own(q, 100, Sub) && DistinctServices(p, q) && FromTables(later, p, q)
    requires Taken(s) in p || Taken(s) in q
    ensures var n := ApplyAll(Start(), Listing(p) + Listing(q) + later);
            && (s.role.Pub? ==>
                  s.id in n.callbacks
                  && n.callbacks[s.id] == if s.kind.Topic? then ToTopic(s.name, s.ty) else ToService(s.kind, s.name))
            && (s.role.Sub? && s.kind.Topic? ==> s.id in n.subscribers && n.subscribers[s.id] == (s.name, s.ty))
            && (s.role.Sub? && !s.kind.Topic? ==>
                  s.name in n.Services(s.kind) && n.Services(s.kind)[s.name] == s.id)
            && forall role, kind :: Endpoint(role, kind) in n.callbacks
                                    && n.callbacks[Endpoint(role, kind)] == SetupOf(role, kind)
  {
    hide Own, Listing, ApplyAll, Start, DistinctServices;
    var ss := Listing(p) + Listing(q) + later;
    forall t | t in ss ensures Taken(t) in p || Taken(t) in q {
      ListingHolds(p, t);
      ListingHolds(q, t);
    }
    TablesAreCoherent(p, q, ss);
    forall t | t in Listing(p) ensures t.role.Pub? {
      ListingHolds(p, t);
      TakenOwn(p, 100 + |q|, Pub, t);
    }
    ListingHolds(p, s);
    ListingHolds(q, s);
    if Taken(s) in p { TakenOwn(p, 100 + |q|, Pub, s); } else { TakenOwn(q, 100, Sub, s); }
    assert s in ss;
    NegotiationRoutes(Listing(p), Listing(q), later, s);
    forall role, kind ensures var n := ApplyAll(Start(), ss).callbacks;
                              Endpoint(role, kind) in n && n[Endpoint(role, kind)] == SetupOf(role, kind) {
      SetupsAreKept(ss, role, kind);
    }
  }

  // ---- the announcement of a slot ----

  /** rosserial_msgs/msg/TopicInfo: topic_id, topic_name, message_type, md5sum, buffer_size. */
  const TOPIC_INFO: Ty := Msg([Prim(2), Str, Str, Str, Prim(4)])

  predicate CString(s: seq<byte>) { 0 !in s && |s| + 1 < 0x1_0000_0000 }

  predicate Named(s: Setup) { CString(s.name) && CString(s.ty) && CString(s.md5) }

  function InfoOf(s: Setup, size: nat): Val
    requires size < 0x1_0000_0000
  {
    VMsg([VPrim([Lo(s.id), Hi(s.id)]), VStr(s.name), VStr(s.ty), VStr(s.md5), VPrim(LE32(size))])
  }

  /** The announcement that a session reads from a TopicInfo that came under the id of role and kind. */
  function Reported(role: Role, kind: Kind, v: Val): Setup
    requires HasType(TOPIC_INFO, v)
  {
    InfoFields(v);
    var id := v.vals[0].image;
    FromLoHi(id[0], id[1]);
    Setup(role, kind, id[0] as int + 256 * id[1] as int, v.vals[1].chars, v.vals[2].chars, v.vals[3].chars)
  }

  lemma InfoFields(v: Val)
    requires HasType(TOPIC_INFO, v)
    ensures v.VMsg? && |v.vals| == 5 && v.vals[0].VPrim? && |v.vals[0].image| == 2
    ensures v.vals[1].VStr? && v.vals[2].VStr? && v.vals[3].VStr? && v.vals[4].VPrim? && |v.vals[4].image| == 4
  {
    var tys, vs := TOPIC_INFO.fields, v.vals;
    assert HaveTypes(tys, vs);
    assert HasType(tys[0], vs[0]) && HasType(tys[1], vs[1]) && HasType(tys[2], vs[2]) && HasType(tys[3], vs[3]);
    assert HasType(tys[4], vs[4]);
  }

  lemma InfoIsTyped(s: Setup, size: nat)
    requires Named(s) && size < 0x1_0000_0000
    ensures WellFormed(TOPIC_INFO) && HasType(TOPIC_INFO, InfoOf(s, size))
  {
    hide LE32;
    var tys, vs := TOPIC_INFO.fields, InfoOf(s, size).vals;
    forall i | 0 <= i < 5 ensures HasType(tys[i], vs[i]) {
      if { case i == 0 => case i == 1 => case i == 2 => case i == 3 => case i == 4 => }
    }
  }

  /** The buffer size that a TopicInfo tells. */
  function ReportedSize(v: Val): nat
    requires HasType(TOPIC_INFO, v)
  {
    InfoFields(v);
    var b := v.vals[4].image;
    b[0] as int + 0x100 * b[1] as int + 0x1_0000 * b[2] as int + 0x100_0000 * b[3] as int
  }

  /** What is announced is what is reported. */
  lemma InfoIsReported(s: Setup, size: nat)
    requires Named(s) && size < 0x1_0000_0000
    ensures HasType(TOPIC_INFO, InfoOf(s, size)) && Reported(s.role, s.kind, InfoOf(s, size)) == s
    ensures ReportedSize(InfoOf(s, size)) == size
  {
    InfoIsTyped(s, size);
    LoHi(s.id);
    hide LE32;
  }

  function ItemOf(s: Setup, size: nat): Item
    requires size < 0x1_0000_0000
  {
    Item(Endpoint(s.role, s.kind), TOPIC_INFO, InfoOf(s, size))
  }

  function Items(ss: seq<Setup>, size: nat): (r: seq<Item>)
    requires size < 0x1_0000_0000
    ensures |r| == |ss| && forall i :: 0 <= i < |ss| ==> r[i] == ItemOf(ss[i], size)
  {
    seq(|ss|, i requires 0 <= i < |ss| => ItemOf(ss[i], size))
  }

  lemma ItemsAreTyped(ss: seq<Setup>, size: nat)
    requires size < 0x1_0000_0000 && forall s <- ss :: Named(s)
    ensures forall m <- Items(ss, size) :: m.Typed()
  {
    forall i | 0 <= i < |ss| ensures Items(ss, size)[i].Typed() { InfoIsTyped(ss[i], size); }
  }

  predicate AllNamed(ss: seq<Setup>) { forall s <- ss :: Named(s) }

  /** What is on the wire after the announcements, each with the buffer size that it tells. */
  ghost function Announced(o: Out, configured: bool, ss: seq<Setup>, size: nat): (r: Out)
    requires Sized(|o.mem|) && size < 0x1_0000_0000 && AllNamed(ss)
    ensures |r.mem| == |o.mem|
  {
    ItemsAreTyped(ss, size);
    PublishAll(o, configured, Items(ss, size))
  }

  lemma NothingAnnounced(o: Out, configured: bool, size: nat)
    requires Sized(|o.mem|) && size < 0x1_0000_0000
    ensures Announced(o, configured, [], size) == o
  {
  }

  lemma AnnouncedOneMore(o: Out, configured: bool, ss: seq<Setup>, s: Setup, size: nat)
    requires Sized(|o.mem|) && size < 0x1_0000_0000 && AllNamed(ss) && Named(s)
    ensures AllNamed(ss + [s]) && WellFormed(TOPIC_INFO) && HasType(TOPIC_INFO, InfoOf(s, size))
    ensures Announced(o, configured, ss + [s], size)
            == Publishing(Announced(o, configured, ss, size), configured, Endpoint(s.role, s.kind), TOPIC_INFO, InfoOf(s, size)).0
  {
    hide PublishAll, Publishing, WellFormed, HasType;
    InfoIsTyped(s, size);
    ItemsAreTyped(ss, size);
    ItemsAreTyped(ss + [s], size);
    assert Items(ss + [s], size) == Items(ss, size) + [ItemOf(s, size)];
    PublishOneMore(o, configured, Items(ss, size), ItemOf(s, size));
  }

  lemma NothingListed(view: seq<Slot>)
    ensures Listing(view[..0]) == []
  {
  }

  lemma ListingMore(view: seq<Slot>, i: nat)
    requires i < |view|
    ensures Listing(view[..i + 1]) == if view[i].Taken? then Listing(view[..i]) + [view[i].s] else Listing(view[..i])
  {
    assert view[..i + 1][..i] == view[..i];
  }

  // ---- the tables ----

  /** A Publisher or Subscriber_ object of the firmware. */
  class Registration {
    const role: Role
    const kind: Kind
    const name: seq<byte>
    const ty: seq<byte>
    const md5: seq<byte>
    var id: u16

    constructor (role: Role, kind: Kind, name: seq<byte>, ty: seq<byte>, md5: seq<byte>)
      ensures this.role == role && this.kind == kind && this.name == name && this.ty == ty && this.md5 == md5
    {
      this.role, this.kind, this.name, this.ty, this.md5, this.id := role, kind, name, ty, md5, 0;
    }

    function Announcement(): Setup
      reads this
    {
      Setup(role, kind, id, name, ty, md5)
    }
  }

  class Table {
    const base: nat
    const role: Role
    const slots: array<Registration?>

    ghost predicate Valid()
      reads slots, slots[..]
    {
      && base + slots.Length < 0x1_0000
      && forall i :: 0 <= i < slots.Length && slots[i] != null ==> Mine(slots[i])
    }

    /** The id of a registered object leads to a slot that holds it. */
    ghost predicate Mine(e: Registration)
      reads slots, e
    {
      e.role == role && base <= e.id < base + slots.Length && slots[e.id - base] == e
    }

    ghost function View(): (v: seq<Slot>)
      reads slots, slots[..]
      ensures |v| == slots.Length
    {
      seq(slots.Length, i requires 0 <= i < slots.Length reads slots, slots[..] =>
        var e := slots[i]; if e == null then Free else Taken(e.Announcement()))
    }

    /** Registered objects have proper C strings. */
    ghost predicate AllNamed()
      reads slots, slots[..]
    {
      forall i :: 0 <= i < slots.Length && slots[i] != null ==> Named(slots[i].Announcement())
    }

    lemma NamedAt(i: nat)
      requires AllNamed() && i < slots.Length
      ensures slots[i] != null ==> Named(slots[i].Announcement())
    {
    }

    lemma ViewAt(i: nat)
      requires i < slots.Length
      ensures slots[i] == null ==> View()[i] == Free
      ensures slots[i] != null ==> View()[i] == Taken(slots[i].Announcement())
    {
    }

    lemma ViewIsOwn()
      requires Valid()
      ensures Own(View(), base, role)
    {
    }

    constructor (base: nat, role: Role, size: nat)
      requires base + size < 0x1_0000
      ensures Valid() && fresh(slots) && slots.Length == size && this.base == base && this.role == role
      ensures forall i :: 0 <= i < size ==> slots[i] == null
    {
      this.base, this.role := base, role;
      slots := new Registration?[size](_ => null);
    }

    /** The loop of advertise and subscribe. */
    method FirstFree() returns (i: nat)
      ensures i <= slots.Length && (i < slots.Length ==> slots[i] == null)
      ensures forall j :: 0 <= j < i ==> slots[j] != null
    {
      i := 0;
      while i < slots.Length && slots[i] != null
        invariant i <= slots.Length && forall j :: 0 <= j < i ==> slots[j] != null
      {
        i := i + 1;
      }
    }

    /** advertise and subscribe: the first empty slot, and the id that goes with it; false when none is empty. */
    method Register(e: Registration) returns (ok: bool, ghost i: nat)
      requires Valid() && e.role == role
      modifies slots, e`id
      ensures Valid()
      ensures i <= slots.Length && (forall j :: 0 <= j < i ==> old(slots[j]) != null) && ok == (i < slots.Length)
      ensures ok ==> old(slots[i]) == null && e.id == base + i && slots[..] == old(slots[..])[i := e]
      ensures !ok ==> slots[..] == old(slots[..]) && e.id == old(e.id)
    {
      var k := FirstFree();
      i, ok := k, k < slots.Length;
      if ok {
        Place(e, k);
        assert forall j :: 0 <= j < slots.Length ==> slots[..][j] == old(slots[..])[i := e][j];
      }
    }

    method Place(e: Registration, k: nat)
      requires Valid() && e.role == role && k < slots.Length && slots[k] == null
      modifies slots, e`id
      ensures Valid() && slots[k] == e && e.id == base + k
      ensures forall j :: 0 <= j < slots.Length && j != k ==> slots[j] == old(slots[j])
    {
      slots[k] := e;
      e.id := k + base;
      assert forall x: Registration :: x != e && old(Mine(x)) ==> Mine(x);
    }
  }
}
