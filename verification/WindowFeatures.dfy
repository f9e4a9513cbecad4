/** The single-listener feature collector: counters updated frame by frame, against what they mean for
    the whole trace heard since the last reset. */
module WindowFeatures {
  import opened Finite
  import opened OlsrMessages
  import opened Statistics

  /** What the header parsers make of a sniffed frame.  `Other` covers control and management frames,
      truncated headers and anything that is not IPv4. */
  datatype Layers =
    | Other
    | Ip(source: Address, udp: Udp)

  /** `NotOlsr`: not UDP, truncated, or another port.  `Truncated`: port 698, but no room for the OLSR
      packet header. */
  datatype Udp = NotOlsr | Truncated | Olsr(packetLength: u16, bytes: seq<byte>)

  datatype Frame = Frame(size: nat, layers: Layers)

  /** A frame and the time, in seconds, at which it was heard. */
  datatype Heard = Heard(frame: Frame, now: real)

  const PACKET_HEADER: nat := 4

  /** The bytes the message loop may use: bounded by the packet length field and by what was received. */
  function Budget(packetLength: u16, bytes: seq<byte>): (r: nat)
    ensures r <= |bytes|
  {
    var remaining := if packetLength > PACKET_HEADER then packetLength - PACKET_HEADER else 0;
    if remaining > |bytes| then |bytes| else remaining
  }

  /** The messages a frame carries; `None` when reading one aborts the program. */
  ghost function MessagesOf(f: Frame): Option<seq<Message>> {
    if f.layers.Ip? && f.layers.udp.Olsr? then
      Parse(f.layers.udp.bytes, Budget(f.layers.udp.packetLength, f.layers.udp.bytes), 1)
    else Some([])
  }

  // ---------------------------------------------------------------------------
  // What the frame counters mean
  // ---------------------------------------------------------------------------

  datatype Column = Frames | Bytes | DataFrames | DataBytes | OlsrFrames | OlsrBytes
                  | FramesFrom(source: Address) | BytesFrom(source: Address)

  predicate IsIp(f: Frame) {
    f.layers.Ip?
  }

  predicate IsOlsr(f: Frame) {
    f.layers.Ip? && !f.layers.udp.NotOlsr?
  }

  /** The contribution of one frame to a column. */
  function Weight(f: Frame, c: Column): nat {
    match c
    case Frames => 1
    case Bytes => f.size
    case DataFrames => if IsIp(f) then 1 else 0
    case DataBytes => if IsIp(f) then f.size else 0
    case OlsrFrames => if IsOlsr(f) then 1 else 0
    case OlsrBytes => if IsOlsr(f) then f.size else 0
    case FramesFrom(a) => if IsIp(f) && f.layers.source == a then 1 else 0
    case BytesFrom(a) => if IsIp(f) && f.layers.source == a then f.size else 0
  }

  ghost function Total(hs: seq<Heard>, c: Column): nat {
    if hs == [] then 0 else Total(hs[..|hs| - 1], c) + Weight(hs[|hs| - 1].frame, c)
  }

  /** The sources heard: the IPv4 source of every IPv4 frame. */
  ghost function Sources(hs: seq<Heard>): set<Address> {
    set i | 0 <= i < |hs| && IsIp(hs[i].frame) :: hs[i].frame.layers.source
  }

  ghost predicate IsFrom(h: Heard, a: Address) {
    IsIp(h.frame) && h.frame.layers.source == a
  }

  /** `t` is when `a` was heard first (or last). */
  ghost predicate FirstHeard(hs: seq<Heard>, a: Address, t: real) {
    exists i :: 0 <= i < |hs| && IsFrom(hs[i], a) && hs[i].now == t && forall j :: 0 <= j < i ==> !IsFrom(hs[j], a)
  }

  ghost predicate LastHeard(hs: seq<Heard>, a: Address, t: real) {
    exists i :: 0 <= i < |hs| && IsFrom(hs[i], a) && hs[i].now == t && forall j :: i < j < |hs| ==> !IsFrom(hs[j], a)
  }

  // ---------------------------------------------------------------------------
  // What the message counters mean
  // ---------------------------------------------------------------------------

  datatype MessageColumn = TcCopies | TcRows | TcHops | Hellos | Mids | Hnas

  function MessageWeight(m: Message, c: MessageColumn): nat {
    match c
    case TcCopies => if m.body.Tc? then 1 else 0
    case TcRows => if m.body.Tc? then |m.body.neighbors| else 0
    case TcHops => if m.body.Tc? then m.hopCount else 0
    case Hellos => if m.body.Hello? then 1 else 0
    case Mids => if m.body.Mid? then 1 else 0
    case Hnas => if m.body.Hna? then 1 else 0
  }

  ghost function MessageTotal(ms: seq<Message>, c: MessageColumn): nat {
    if ms == [] then 0 else MessageTotal(ms[..|ms| - 1], c) + MessageWeight(ms[|ms| - 1], c)
  }

  /** The distinct TC messages heard, whatever the number of copies. */
  ghost function TcIds(ms: seq<Message>): set<(Address, u16)> {
    set i | 0 <= i < |ms| && ms[i].body.Tc? :: (ms[i].originator, ms[i].sequence)
  }

  /** Every address heard as the originator of a TC or advertised by one. */
  ghost function TcAddresses(ms: seq<Message>): set<Address> {
    (set i | 0 <= i < |ms| && ms[i].body.Tc? :: ms[i].originator) +
    (set i, j | 0 <= i < |ms| && ms[i].body.Tc? && 0 <= j < |ms[i].body.neighbors| :: ms[i].body.neighbors[j])
  }

  /** `n` is the number of links in the latest TC of `a`. */
  ghost predicate LatestAdvertised(ms: seq<Message>, a: Address, n: nat) {
    exists i :: 0 <= i < |ms| && ms[i].body.Tc? && ms[i].originator == a && |ms[i].body.neighbors| == n
                && forall j :: i < j < |ms| ==> !(ms[j].body.Tc? && ms[j].originator == a)
  }

  /** The key under which a TC message is remembered: 32 bits of originator, 16 bits of sequence number. */
  function Key(originator: Address, sequence: u16): nat {
    originator * 0x1_0000 + sequence
  }

  lemma KeyIsInjective(a: Address, s: u16, b: Address, t: u16)
    requires Key(a, s) == Key(b, t)
    ensures a == b && s == t
  {
  }

  ghost function Keys(ids: set<(Address, u16)>): set<nat> {
    set id | id in ids :: Key(id.0, id.1)
  }

  lemma {:induction false} KeysCount(ids: set<(Address, u16)>)
    ensures |Keys(ids)| == |ids|
    decreases ids
  {
    if ids == {} {
      assert Keys(ids) == {};
    } else {
      var id :| id in ids;
      KeysCount(ids - {id});
      var k := Key(id.0, id.1);
      assert Keys(ids) == Keys(ids - {id}) + {k};
      if k in Keys(ids - {id}) {
        var other :| other in ids - {id} && Key(other.0, other.1) == k;
        KeyIsInjective(id.0, id.1, other.0, other.1);
      }
    }
  }

  lemma KeyInKeys(ids: set<(Address, u16)>, a: Address, s: u16)
    ensures Key(a, s) in Keys(ids) <==> (a, s) in ids
  {
    if Key(a, s) in Keys(ids) {
      var id :| id in ids && Key(id.0, id.1) == Key(a, s);
      KeyIsInjective(a, s, id.0, id.1);
    }
  }

  // ---------------------------------------------------------------------------
  // One more frame, one more message
  // ---------------------------------------------------------------------------

  lemma TotalNext(hs: seq<Heard>, h: Heard, c: Column)
    ensures Total(hs + [h], c) == Total(hs, c) + Weight(h.frame, c)
  {
    assert (hs + [h])[..|hs|] == hs;
  }

  lemma SourcesNext(hs: seq<Heard>, h: Heard)
    ensures Sources(hs + [h]) == Sources(hs) + (if IsIp(h.frame) then {h.frame.layers.source} else {})
  {
    var x := hs + [h];
    forall a | a in Sources(x) ensures a in Sources(hs) || (IsIp(h.frame) && a == h.frame.layers.source) {
      var i :| 0 <= i < |x| && IsIp(x[i].frame) && x[i].frame.layers.source == a;
      if i < |hs| { assert x[i] == hs[i]; }
    }
    forall a | a in Sources(hs) ensures a in Sources(x) {
      var i :| 0 <= i < |hs| && IsIp(hs[i].frame) && hs[i].frame.layers.source == a;
      assert x[i] == hs[i];
    }
    assert x[|hs|] == h;
  }

  lemma NotHeard(hs: seq<Heard>, a: Address)
    requires a !in Sources(hs)
    ensures forall i :: 0 <= i < |hs| ==> !IsFrom(hs[i], a)
    ensures Total(hs, FramesFrom(a)) == 0 && Total(hs, BytesFrom(a)) == 0
  {
    assert forall i :: 0 <= i < |hs| && IsIp(hs[i].frame) ==> hs[i].frame.layers.source in Sources(hs);
    NothingFrom(hs, a);
  }

  lemma {:induction false} NothingFrom(hs: seq<Heard>, a: Address)
    requires forall i :: 0 <= i < |hs| ==> !IsFrom(hs[i], a)
    ensures Total(hs, FramesFrom(a)) == 0 && Total(hs, BytesFrom(a)) == 0
    decreases |hs|
  {
    if hs != [] {
      NothingFrom(hs[..|hs| - 1], a);
    }
  }

  lemma FirstHeardNext(hs: seq<Heard>, h: Heard, a: Address, t: real)
    ensures FirstHeard(hs, a, t) ==> FirstHeard(hs + [h], a, t)
    ensures IsFrom(h, a) && (forall i :: 0 <= i < |hs| ==> !IsFrom(hs[i], a)) ==> FirstHeard(hs + [h], a, h.now)
  {
    var x := hs + [h];
    if FirstHeard(hs, a, t) {
      var i :| 0 <= i < |hs| && IsFrom(hs[i], a) && hs[i].now == t && forall j :: 0 <= j < i ==> !IsFrom(hs[j], a);
      assert x[i] == hs[i];
      assert forall j :: 0 <= j < i ==> x[j] == hs[j];
    }
    assert x[|hs|] == h;
    assert forall j :: 0 <= j < |hs| ==> x[j] == hs[j];
  }

  lemma LastHeardNext(hs: seq<Heard>, h: Heard, a: Address, t: real)
    ensures LastHeard(hs, a, t) && !IsFrom(h, a) ==> LastHeard(hs + [h], a, t)
    ensures IsFrom(h, a) ==> LastHeard(hs + [h], a, h.now)
  {
    var x := hs + [h];
    if LastHeard(hs, a, t) && !IsFrom(h, a) {
      var i :| 0 <= i < |hs| && IsFrom(hs[i], a) && hs[i].now == t && forall j :: i < j < |hs| ==> !IsFrom(hs[j], a);
      assert x[i] == hs[i];
      assert forall j :: i < j < |x| ==> if j < |hs| then x[j] == hs[j] else x[j] == h;
    }
    assert x[|hs|] == h;
  }

  lemma MessageTotalNext(ms: seq<Message>, m: Message, c: MessageColumn)
    ensures MessageTotal(ms + [m], c) == MessageTotal(ms, c) + MessageWeight(m, c)
  {
    assert (ms + [m])[..|ms|] == ms;
  }

  lemma TcIdsNext(ms: seq<Message>, m: Message)
    ensures TcIds(ms + [m]) == TcIds(ms) + (if m.body.Tc? then {(m.originator, m.sequence)} else {})
  {
    var x := ms + [m];
    assert forall i :: 0 <= i < |ms| ==> x[i] == ms[i];
    assert x[|ms|] == m;
    forall id | id in TcIds(x) ensures id in TcIds(ms) || (m.body.Tc? && id == (m.originator, m.sequence)) {
      var i :| 0 <= i < |x| && x[i].body.Tc? && (x[i].originator, x[i].sequence) == id;
      if i < |ms| { assert ms[i].body.Tc?; }
    }
    forall id | id in TcIds(ms) ensures id in TcIds(x) {
      var i :| 0 <= i < |ms| && ms[i].body.Tc? && (ms[i].originator, ms[i].sequence) == id;
      assert x[i].body.Tc?;
    }
  }

  lemma LatestNext(ms: seq<Message>, m: Message, a: Address, n: nat)
    ensures LatestAdvertised(ms, a, n) && !(m.body.Tc? && m.originator == a) ==> LatestAdvertised(ms + [m], a, n)
    ensures m.body.Tc? ==> LatestAdvertised(ms + [m], m.originator, |m.body.neighbors|)
  {
    var x := ms + [m];
    assert forall i :: 0 <= i < |ms| ==> x[i] == ms[i];
    assert x[|ms|] == m;
    if LatestAdvertised(ms, a, n) && !(m.body.Tc? && m.originator == a) {
      var i :| 0 <= i < |ms| && ms[i].body.Tc? && ms[i].originator == a && |ms[i].body.neighbors| == n
               && forall j :: i < j < |ms| ==> !(ms[j].body.Tc? && ms[j].originator == a);
      assert x[i].body.Tc?;
    }
  }

  ghost predicate Mentions(m: Message, a: Address) {
    m.body.Tc? && (a == m.originator || a in m.body.neighbors)
  }

  /** An address is seen when some TC mentions it. */
  lemma SeenMeans(ms: seq<Message>, a: Address)
    ensures a in TcAddresses(ms) <==> exists i :: 0 <= i < |ms| && Mentions(ms[i], a)
  {
    if i :| 0 <= i < |ms| && Mentions(ms[i], a) {
      if a != ms[i].originator {
        var j :| 0 <= j < |ms[i].body.neighbors| && ms[i].body.neighbors[j] == a;
      }
    }
  }

  lemma TcAddressesNext(ms: seq<Message>, m: Message)
    ensures TcAddresses(ms + [m]) ==
            TcAddresses(ms) + (if m.body.Tc? then {m.originator} + Elements(m.body.neighbors) else {})
  {
    hide TcAddresses;
    var x := ms + [m];
    forall a: Address
      ensures a in TcAddresses(x) <==> a in TcAddresses(ms) || Mentions(m, a)
    {
      SeenMeans(ms, a);
      SeenMeans(x, a);
      assert x[|ms|] == m && forall i :: 0 <= i < |ms| ==> x[i] == ms[i];
    }
  }

  // ---------------------------------------------------------------------------
  // The collector's fields against their meaning
  // ---------------------------------------------------------------------------

  /** The frame counters. */
  datatype Tally = Tally(frames: nat, bytes: nat) {
    function Add(size: nat): Tally {
      Tally(frames + 1, bytes + size)
    }
  }

  /** All frames, those carrying IPv4, and those carrying OLSR. */
  datatype Totals = Totals(all: Tally, data: Tally, olsr: Tally) {
    ghost predicate Mean(hs: seq<Heard>) {
      && all.frames == Total(hs, Frames) && all.bytes == Total(hs, Bytes)
      && data.frames == Total(hs, DataFrames) && data.bytes == Total(hs, DataBytes)
      && olsr.frames == Total(hs, OlsrFrames) && olsr.bytes == Total(hs, OlsrBytes)
    }
  }

  lemma TotalsNext(hs: seq<Heard>, h: Heard, t: Totals)
    requires t.Mean(hs)
    ensures var n := h.frame.size;
            Totals(t.all.Add(n), if IsIp(h.frame) then t.data.Add(n) else t.data,
                   if IsOlsr(h.frame) then t.olsr.Add(n) else t.olsr).Mean(hs + [h])
  {
    hide Total;
    forall c: Column ensures Total(hs + [h], c) == Total(hs, c) + Weight(h.frame, c) {
      TotalNext(hs, h, c);
    }
  }

  /** The maps by IPv4 source. */
  datatype BySource = BySource(bytes: map<Address, nat>, frames: map<Address, nat>,
                               first: map<Address, real>, last: map<Address, real>)
  {
    ghost predicate Mean(hs: seq<Heard>) {
      && bytes.Keys == frames.Keys == first.Keys == last.Keys == Sources(hs)
      && forall a :: a in Sources(hs) ==>
           && bytes[a] == Total(hs, BytesFrom(a)) && frames[a] == Total(hs, FramesFrom(a))
           && FirstHeard(hs, a, first[a]) && LastHeard(hs, a, last[a])
    }
  }

  lemma BySourceOther(hs: seq<Heard>, h: Heard, s: BySource)
    requires s.Mean(hs) && !IsIp(h.frame)
    ensures s.Mean(hs + [h])
  {
    hide Total, Sources, FirstHeard, LastHeard;
    SourcesNext(hs, h);
    forall a | a in Sources(hs + [h])
      ensures s.bytes[a] == Total(hs + [h], BytesFrom(a)) && s.frames[a] == Total(hs + [h], FramesFrom(a))
      ensures FirstHeard(hs + [h], a, s.first[a]) && LastHeard(hs + [h], a, s.last[a])
    {
      TotalNext(hs, h, BytesFrom(a));
      TotalNext(hs, h, FramesFrom(a));
      FirstHeardNext(hs, h, a, s.first[a]);
      LastHeardNext(hs, h, a, s.last[a]);
    }
  }

  function Count(m: map<Address, nat>, a: Address): nat {
    if a in m then m[a] else 0
  }

  lemma CountsNext(hs: seq<Heard>, h: Heard, s: BySource, a: Address)
    requires s.Mean(hs) && IsIp(h.frame) && a in Sources(hs + [h])
    ensures Count(s.bytes, a) + (if a == h.frame.layers.source then h.frame.size else 0) == Total(hs + [h], BytesFrom(a))
    ensures Count(s.frames, a) + (if a == h.frame.layers.source then 1 else 0) == Total(hs + [h], FramesFrom(a))
  {
    hide Total, Sources, FirstHeard, LastHeard;
    SourcesNext(hs, h);
    if a !in s.first { NotHeard(hs, a); }
    TotalNext(hs, h, BytesFrom(a));
    TotalNext(hs, h, FramesFrom(a));
  }

  lemma TimesNext(hs: seq<Heard>, h: Heard, s: BySource, a: Address)
    requires s.Mean(hs) && IsIp(h.frame) && a in Sources(hs + [h])
    ensures a in s.first || a == h.frame.layers.source
    ensures FirstHeard(hs + [h], a, if a in s.first then s.first[a] else h.now)
    ensures a == h.frame.layers.source || a in s.last
    ensures LastHeard(hs + [h], a, if a == h.frame.layers.source then h.now else s.last[a])
  {
    hide Total, Sources, FirstHeard, LastHeard;
    SourcesNext(hs, h);
    if a !in s.first { NotHeard(hs, a); }
    FirstHeardNext(hs, h, a, if a in s.first then s.first[a] else h.now);
    LastHeardNext(hs, h, a, if a == h.frame.layers.source then h.now else s.last[a]);
  }

  lemma BySourceIp(hs: seq<Heard>, h: Heard, s: BySource)
    requires s.Mean(hs) && IsIp(h.frame)
    ensures var src := h.frame.layers.source;
            BySource(s.bytes[src := Count(s.bytes, src) + h.frame.size], s.frames[src := Count(s.frames, src) + 1],
                     if src in s.first then s.first else s.first[src := h.now], s.last[src := h.now]).Mean(hs + [h])
  {
    hide Total, Sources, FirstHeard, LastHeard, Weight;
    SourcesNext(hs, h);
    forall a | a in Sources(hs + [h])
      ensures Count(s.bytes, a) + (if a == h.frame.layers.source then h.frame.size else 0) == Total(hs + [h], BytesFrom(a))
      ensures Count(s.frames, a) + (if a == h.frame.layers.source then 1 else 0) == Total(hs + [h], FramesFrom(a))
      ensures FirstHeard(hs + [h], a, if a in s.first then s.first[a] else h.now)
      ensures a == h.frame.layers.source || a in s.last
      ensures LastHeard(hs + [h], a, if a == h.frame.layers.source then h.now else s.last[a])
    {
      CountsNext(hs, h, s, a);
      TimesNext(hs, h, s, a);
    }
  }

  /** Advertised links summed over the first heard copy of each TC message. */
  ghost function UniqueRows(ms: seq<Message>): nat {
    if ms == [] then 0 else
      var m, earlier := ms[|ms| - 1], ms[..|ms| - 1];
      UniqueRows(earlier) + (if m.body.Tc? && (m.originator, m.sequence) !in TcIds(earlier) then |m.body.neighbors| else 0)
  }

  lemma UniqueRowsNext(ms: seq<Message>, m: Message)
    ensures UniqueRows(ms + [m]) ==
            UniqueRows(ms) + (if m.body.Tc? && (m.originator, m.sequence) !in TcIds(ms) then |m.body.neighbors| else 0)
  {
    hide TcIds;
    assert (ms + [m])[..|ms|] == ms;
  }

  ghost function Originators(ms: seq<Message>): set<Address> {
    set i | 0 <= i < |ms| && ms[i].body.Tc? :: ms[i].originator
  }

  lemma OriginatorsNext(ms: seq<Message>, m: Message)
    ensures Originators(ms + [m]) == Originators(ms) + (if m.body.Tc? then {m.originator} else {})
  {
    var x := ms + [m];
    assert forall i :: 0 <= i < |ms| ==> x[i] == ms[i];
    assert x[|ms|] == m;
    forall a | a in Originators(x) ensures a in Originators(ms) || (m.body.Tc? && a == m.originator) {
      var i :| 0 <= i < |x| && x[i].body.Tc? && x[i].originator == a;
      if i < |ms| { assert ms[i].body.Tc?; }
    }
    forall a | a in Originators(ms) ensures a in Originators(x) {
      var i :| 0 <= i < |ms| && ms[i].body.Tc? && ms[i].originator == a;
      assert x[i].body.Tc?;
    }
  }

  ghost predicate AdvertisedMeans(ms: seq<Message>, adv: map<Address, nat>) {
    adv.Keys == Originators(ms) && forall a :: a in adv ==> LatestAdvertised(ms, a, adv[a])
  }

  lemma AdvertisedNext(ms: seq<Message>, m: Message, adv: map<Address, nat>)
    requires AdvertisedMeans(ms, adv)
    ensures AdvertisedMeans(ms + [m], if m.body.Tc? then adv[m.originator := |m.body.neighbors|] else adv)
  {
    hide LatestAdvertised, Originators;
    OriginatorsNext(ms, m);
    var next := if m.body.Tc? then adv[m.originator := |m.body.neighbors|] else adv;
    forall a | a in next ensures LatestAdvertised(ms + [m], a, next[a]) {
      LatestNext(ms, m, a, if a in adv then adv[a] else 0);
    }
  }

  /** The counters of message copies. */
  datatype TcTally = TcTally(count: nat, rows: nat, hopSum: nat)

  datatype Copies = Copies(tc: TcTally, helloCount: nat, midCount: nat, hnaCount: nat) {
    ghost predicate Mean(ms: seq<Message>) {
      && tc.count == MessageTotal(ms, TcCopies) && tc.rows == MessageTotal(ms, TcRows) && tc.hopSum == MessageTotal(ms, TcHops)
      && helloCount == MessageTotal(ms, Hellos) && midCount == MessageTotal(ms, Mids) && hnaCount == MessageTotal(ms, Hnas)
    }
  }

  lemma CopiesNext(ms: seq<Message>, m: Message, c: Copies)
    requires c.Mean(ms)
    ensures match m.body
      case Hello(_, _, _) => c.(helloCount := c.helloCount + 1).Mean(ms + [m])
      case Tc(_, ns) =>
        c.(tc := TcTally(c.tc.count + 1, c.tc.rows + |ns|, c.tc.hopSum + m.hopCount)).Mean(ms + [m])
      case Mid(_) => c.(midCount := c.midCount + 1).Mean(ms + [m])
      case Hna(_) => c.(hnaCount := c.hnaCount + 1).Mean(ms + [m])
  {
    hide MessageTotal;
    forall c: MessageColumn ensures MessageTotal(ms + [m], c) == MessageTotal(ms, c) + MessageWeight(m, c) {
      MessageTotalNext(ms, m, c);
    }
  }

  /** The memory of distinct TC messages. */
  datatype Unique = Unique(seen: set<nat>, count: nat, rows: nat) {
    ghost predicate Mean(ms: seq<Message>) {
      seen == Keys(TcIds(ms)) && count == |TcIds(ms)| && rows == UniqueRows(ms)
    }
  }

  lemma UniqueNext(ms: seq<Message>, m: Message, u: Unique)
    requires u.Mean(ms)
    ensures var key := Key(m.originator, m.sequence);
            if m.body.Tc? && key !in u.seen then Unique(u.seen + {key}, u.count + 1, u.rows + |m.body.neighbors|).Mean(ms + [m])
            else u.Mean(ms + [m])
  {
    hide TcIds, Keys, UniqueRows, Key;
    var id := (m.originator, m.sequence);
    TcIdsNext(ms, m);
    UniqueRowsNext(ms, m);
    KeyInKeys(TcIds(ms), m.originator, m.sequence);
    KeysNext(TcIds(ms), id);
    if id in TcIds(ms) { assert TcIds(ms) + {id} == TcIds(ms); }
    assert TcIds(ms) + {} == TcIds(ms);
  }

  ghost predicate AddressesMean(ms: seq<Message>, seen: set<Address>) {
    seen == TcAddresses(ms)
  }

  lemma AddressesNext(ms: seq<Message>, m: Message, seen: set<Address>)
    requires AddressesMean(ms, seen)
    ensures AddressesMean(ms + [m], if m.body.Tc? then seen + {m.originator} + Elements(m.body.neighbors) else seen)
  {
    hide TcAddresses;
    TcAddressesNext(ms, m);
  }

  function NoTotals(): Totals {
    Totals(Tally(0, 0), Tally(0, 0), Tally(0, 0))
  }

  function NoCopies(): Copies {
    Copies(TcTally(0, 0, 0), 0, 0, 0)
  }

  lemma NothingHeard()
    ensures NoTotals().Mean([]) && BySource(map[], map[], map[], map[]).Mean([])
    ensures NoCopies().Mean([]) && Unique({}, 0, 0).Mean([])
    ensures AdvertisedMeans([], map[]) && AddressesMean([], {})
  {
    assert TcIds([]) == {} && Keys({}) == {};
    assert TcAddresses([]) == {};
    assert Sources([]) == {} && Originators([]) == {};
  }

  lemma KeysNext(ids: set<(Address, u16)>, id: (Address, u16))
    ensures Keys(ids + {id}) == Keys(ids) + {Key(id.0, id.1)}
  {
  }

  /** A parse that went on after `parsed` were read. */
  ghost function Prepend(parsed: seq<Message>, rest: Option<seq<Message>>): Option<seq<Message>> {
    match rest
    case None => None
    case Some(ms) => Some(parsed + ms)
  }

  lemma PrependOne(parsed: seq<Message>, m: Message, rest: Option<seq<Message>>)
    ensures Prepend(parsed, Prepend([m], rest)) == Prepend(parsed + [m], rest)
  {
    if rest.Some? {
      assert parsed + ([m] + rest.value) == parsed + [m] + rest.value;
    }
  }

  lemma PrependNone(rest: Option<seq<Message>>, parsed: seq<Message>)
    ensures Prepend([], rest) == rest && Prepend(parsed, Some([])) == Some(parsed)
  {
    if rest.Some? { assert [] + rest.value == rest.value; }
    assert parsed + [] == parsed;
  }

  lemma ParseUnfold(p: seq<byte>, remaining: nat)
    requires remaining <= |p|
    ensures remaining == 0 ==> Parse(p, remaining, 1) == Some([])
    ensures remaining > 0 ==>
              if !(1 <= p[0] <= 4) then Parse(p, remaining, 1) == Some([])
              else match Decode(p)
                case None => Parse(p, remaining, 1) == None
                case Some((m, consumed)) =>
                  Parse(p, remaining, 1) ==
                    if consumed > remaining then Some([]) else Prepend([m], Parse(p[consumed..], remaining - consumed, 1))
  {
    hide Decode;
  }

  class FeatureCollector {
    var winStart: real
    var winEnd: real
    var totals: Totals
    var copies: Copies
    var unique: Unique
    var advByOriginator: map<Address, nat>
    var addrsSeen: set<Address>
    var bySource: BySource

    /** The frames observed since the last reset, and the messages taken out of them. */
    ghost var heard: seq<Heard>
    ghost var messages: seq<Message>

    ghost predicate FramesValid()
      reads this
    {
      totals.Mean(heard) && bySource.Mean(heard)
    }

    ghost predicate MessagesValid()
      reads this
    {
      && copies.Mean(messages) && unique.Mean(messages)
      && AdvertisedMeans(messages, advByOriginator) && AddressesMean(messages, addrsSeen)
    }

    /** Every field has its meaning over the whole trace. */
    ghost predicate Valid()
      reads this
    {
      FramesValid() && MessagesValid()
    }

    constructor (tStart: real)
      ensures Valid() && heard == [] && messages == [] && winStart == winEnd == tStart
    {
      new;
      Reset(tStart);
    }

    method Reset(tStart: real)
      modifies this
      ensures Valid() && heard == [] && messages == [] && winStart == winEnd == tStart
    {
      hide Totals.Mean, BySource.Mean, Copies.Mean, Unique.Mean, AdvertisedMeans, AddressesMean, NoTotals, NoCopies;
      winStart, winEnd := tStart, tStart;
      totals, copies, unique := NoTotals(), NoCopies(), Unique({}, 0, 0);
      advByOriginator, addrsSeen := map[], {};
      bySource := BySource(map[], map[], map[], map[]);
      heard, messages := [], [];
      NothingHeard();
    }

    /** The message switch of the loop. */
    method HandleMessage(m: Message)
      requires MessagesValid()
      modifies this`copies, this`unique, this`advByOriginator, this`addrsSeen, this`messages
      ensures MessagesValid() && messages == old(messages) + [m]
    {
      hide Copies.Mean, Unique.Mean, AdvertisedMeans, AddressesMean, Key, Elements;
      CopiesNext(messages, m, copies);
      UniqueNext(messages, m, unique);
      AdvertisedNext(messages, m, advByOriginator);
      AddressesNext(messages, m, addrsSeen);
      match m.body {
        case Hello(_, _, _) => copies := copies.(helloCount := copies.helloCount + 1);
        case Tc(_, neighbors) =>
          var tc := copies.tc;
          tc := tc.(count := tc.count + 1);
          tc := tc.(rows := tc.rows + |neighbors|);
          advByOriginator := advByOriginator[m.originator := |neighbors|];
          addrsSeen := addrsSeen + {m.originator};
          tc := tc.(hopSum := tc.hopSum + m.hopCount);
          copies := copies.(tc := tc);
          var key := Key(m.originator, m.sequence);
          if key !in unique.seen {
            unique := Unique(unique.seen + {key}, unique.count + 1, unique.rows + |neighbors|);
          }
          AddNeighbors(neighbors);
        case Mid(_) => copies := copies.(midCount := copies.midCount + 1);
        case Hna(_) => copies := copies.(hnaCount := copies.hnaCount + 1);
      }
      messages := messages + [m];
    }

    method AddNeighbors(neighbors: seq<Address>)
      modifies this`addrsSeen
      ensures addrsSeen == old(addrsSeen) + Elements(neighbors)
    {
      hide *;
      ElementsSnoc<Address>([], 0);
      for j := 0 to |neighbors|
        invariant addrsSeen == old(addrsSeen) + Elements(neighbors[..j])
      {
        assert neighbors[..j + 1] == neighbors[..j] + [neighbors[j]];
        ElementsSnoc(neighbors[..j], neighbors[j]);
        addrsSeen := addrsSeen + {neighbors[j]};
      }
      assert neighbors[..|neighbors|] == neighbors;
    }

    /** The part of an observation that comes before the message loop: totals and the maps by source. */
    method CountFrame(f: Frame, now: real)
      requires FramesValid()
      modifies this`totals, this`bySource, this`heard
      ensures FramesValid() && heard == old(heard) + [Heard(f, now)]
    {
      hide Totals.Mean, BySource.Mean;
      ghost var h := Heard(f, now);
      TotalsNext(heard, h, totals);
      totals := totals.(all := totals.all.Add(f.size));
      match f.layers {
        case Other => BySourceOther(heard, h, bySource);
        case Ip(srcKey, udp) =>
          BySourceIp(heard, h, bySource);
          totals := totals.(data := totals.data.Add(f.size));
          var s := bySource;
          s := s.(bytes := s.bytes[srcKey := Count(s.bytes, srcKey) + f.size]);
          s := s.(frames := s.frames[srcKey := Count(s.frames, srcKey) + 1]);
          if srcKey !in s.first { s := s.(first := s.first[srcKey := now]); }
          s := s.(last := s.last[srcKey := now]);
          bySource := s;
          if !udp.NotOlsr? {
            totals := totals.(olsr := totals.olsr.Add(f.size));
          }
      }
      heard := heard + [h];
    }

    /** The values of a row.  Emitting twice gives the same row: only the end of the window is stored. */
    method EmitFeatures(tEnd: real) returns (control: ControlColumns, load: LoadColumns, flow: FlowColumns)
      requires Valid()
      modifies this`winEnd
      ensures winEnd == tEnd
      ensures ControlMeans(control, messages, advByOriginator, Duration(winStart, tEnd))
      ensures LoadMeans(load, heard, Duration(winStart, tEnd))
      ensures FlowMeans(flow, heard, bySource, Duration(winStart, tEnd))
    {
      hide Totals.Mean, BySource.Mean, Copies.Mean, Unique.Mean, AdvertisedMeans, AddressesMean;
      hide ControlMeans, LoadMeans, FlowMeans, Duration;
      winEnd := tEnd;
      var dur := Duration(winStart, winEnd);
      control := EmitControl(copies, unique, advByOriginator, addrsSeen, dur, messages);
      load := EmitLoad(totals, dur, heard);
      flow := EmitFlows(bySource, totals, dur, heard);
    }

    /** The only observation entry point.  Returns false when reading a message aborts the program. */
    method ObserveSniffedFrame(f: Frame, now: real) returns (ok: bool)
      requires Valid()
      modifies this
      ensures ok <==> MessagesOf(f).Some?
      ensures ok ==> Valid() && heard == old(heard) + [Heard(f, now)]
                     && messages == old(messages) + MessagesOf(f).value
                     && winStart == old(winStart)
    {
      hide Totals.Mean, BySource.Mean, Copies.Mean, Unique.Mean, AdvertisedMeans, AddressesMean, Parse, Decode;
      CountFrame(f, now);
      if f.layers.Other? || !f.layers.udp.Olsr? {
        assert messages == messages + [];
        return true;
      }
      var p := f.layers.udp.bytes;
      var remaining: nat := Budget(f.layers.udp.packetLength, p);
      ghost var before, parsed: seq<Message>, target := messages, [], MessagesOf(f);
      PrependNone(target, parsed);
      while remaining > 0
        invariant MessagesValid() && FramesValid() && heard == old(heard) + [Heard(f, now)] && winStart == old(winStart)
        invariant messages == before + parsed
        invariant remaining <= |p|
        invariant target == Prepend(parsed, Parse(p, remaining, 1))
        decreases remaining
      {
        ParseUnfold(p, remaining);
        if p[0] < 1 || p[0] > 4 { break; }
        var decoded := Decode(p);
        DecodeConsumes(p);
        if decoded.None? { return false; }
        var (m, consumed) := decoded.value;
        if consumed > remaining { break; }
        PrependOne(parsed, m, Parse(p[consumed..], remaining - consumed, 1));
        remaining := remaining - consumed;
        p := p[consumed..];
        HandleMessage(m);
        parsed := parsed + [m];
      }
      ParseUnfold(p, remaining);
      PrependNone(target, parsed);
      return true;
    }
  }

  // ---------------------------------------------------------------------------
  // The per-source maps partition the totals
  // ---------------------------------------------------------------------------

  /** The column of one source, bytes or frames. */
  function ColumnFrom(perByte: bool, a: Address): Column {
    if perByte then BytesFrom(a) else FramesFrom(a)
  }

  ghost function SumFrom(hs: seq<Heard>, ks: seq<Address>, perByte: bool): nat {
    if ks == [] then 0 else SumFrom(hs, ks[..|ks| - 1], perByte) + Total(hs, ColumnFrom(perByte, ks[|ks| - 1]))
  }

  lemma {:induction false} SumFromNext(hs: seq<Heard>, h: Heard, ks: seq<Address>, perByte: bool)
    requires Distinct(ks)
    ensures SumFrom(hs + [h], ks, perByte) == SumFrom(hs, ks, perByte) +
              (if IsIp(h.frame) && h.frame.layers.source in ks then (if perByte then h.frame.size else 1) else 0)
    decreases |ks|
  {
    hide Total;
    if ks != [] {
      var k, rest := ks[|ks| - 1], ks[..|ks| - 1];
      assert ks == rest + [k];
      SumFromNext(hs, h, rest, perByte);
      TotalNext(hs, h, ColumnFrom(perByte, k));
    }
  }

  lemma {:induction false} NothingSummed(ks: seq<Address>, perByte: bool)
    ensures SumFrom([], ks, perByte) == 0
    decreases |ks|
  {
    if ks != [] {
      NothingSummed(ks[..|ks| - 1], perByte);
    }
  }

  /** Summed over the sources, the per-source counts give the totals of all IPv4 traffic. */
  lemma {:induction false} SourcesPartition(hs: seq<Heard>, ks: seq<Address>, perByte: bool)
    requires Distinct(ks) && forall a :: a in Sources(hs) ==> a in ks
    ensures SumFrom(hs, ks, perByte) == Total(hs, if perByte then DataBytes else DataFrames)
    decreases |hs|
  {
    if hs == [] {
      NothingSummed(ks, perByte);
    } else {
      hide SumFrom, Sources;
      var h, earlier := hs[|hs| - 1], hs[..|hs| - 1];
      assert hs == earlier + [h];
      SourcesNext(earlier, h);
      SourcesPartition(earlier, ks, perByte);
      SumFromNext(earlier, h, ks, perByte);
    }
  }

  // ---------------------------------------------------------------------------
  // Emission
  // ---------------------------------------------------------------------------

  ghost predicate IsLeast(s: set<Address>, k: Address) {
    k in s && forall x :: x in s ==> k <= x
  }

  lemma {:induction false} LeastExists(s: set<Address>)
    requires s != {}
    ensures exists k :: IsLeast(s, k)
    decreases s
  {
    var y :| y in s;
    var rest := s - {y};
    if rest == {} {
      assert s == {y};
      assert IsLeast(s, y);
    } else {
      LeastExists(rest);
      var k :| IsLeast(rest, k);
      var m := if y < k then y else k;
      forall x | x in s ensures m <= x {
        if x != y { assert x in rest; }
      }
      assert IsLeast(s, m);
    }
  }

  /** The elements of `s` in ascending order, the order in which the maps are walked. */
  ghost function Ascending(s: set<Address>): (ks: seq<Address>)
    decreases s
  {
    if s == {} then [] else
      LeastExists(s);
      var k :| IsLeast(s, k);
      [k] + Ascending(s - {k})
  }

  lemma {:induction false} AscendingOf(s: set<Address>)
    ensures |Ascending(s)| == |s|
    ensures forall x: Address :: x in Ascending(s) <==> x in s
    ensures forall i, j :: 0 <= i < j < |Ascending(s)| ==> Ascending(s)[i] < Ascending(s)[j]
    decreases s
  {
    hide Ascending;
    if s == {} {
      AscendingEmpty();
    } else {
      LeastExists(s);
      var k :| IsLeast(s, k);
      AscendingUnfold(s, k);
      AscendingOf(s - {k});
      var rest := Ascending(s - {k});
      forall j | 0 <= j < |rest| ensures k < rest[j] {
        assert rest[j] in rest;
        assert rest[j] in s - {k};
      }
    }
  }

  lemma AscendingUnfold(s: set<Address>, k: Address)
    requires IsLeast(s, k)
    ensures Ascending(s) == [k] + Ascending(s - {k})
  {
  }

  lemma AscendingDistinct(s: set<Address>)
    ensures Distinct(Ascending(s)) && forall i :: 0 <= i < |Ascending(s)| ==> Ascending(s)[i] in s
  {
    hide Ascending;
    AscendingOf(s);
  }

  method TakeLeast(s: set<Address>) returns (k: Address)
    requires s != {}
    ensures IsLeast(s, k)
  {
    LeastInSet(s);
    k :| k in s && forall x :: x in s ==> k <= x;
  }

  method SortedKeys(s: set<Address>) returns (ks: seq<Address>)
    ensures ks == Ascending(s)
  {
    hide *;
    ks := [];
    var left := s;
    while left != {}
      invariant ks + Ascending(left) == Ascending(s)
      decreases |left|
    {
      var k := TakeLeast(left);
      AscendingStep(ks, left, k);
      ks := ks + [k];
      left := left - {k};
    }
    AscendingEmpty();
  }

  lemma AscendingStep(ks: seq<Address>, left: set<Address>, k: Address)
    requires IsLeast(left, k)
    ensures ks + Ascending(left) == (ks + [k]) + Ascending(left - {k})
    ensures |left - {k}| < |left|
  {
    hide Ascending;
    AscendingUnfold(left, k);
  }

  lemma LeastInSet(s: set<Address>)
    requires s != {}
    ensures exists k :: k in s && forall x :: x in s ==> k <= x
  {
    LeastExists(s);
    var k :| IsLeast(s, k);
    assert k in s;
  }

  lemma AscendingEmpty()
    ensures Ascending({}) == []
  {
  }

  function Ratio(a: nat, b: nat): real {
    if b > 0 then a as real / b as real else 0.0
  }

  function Rate(n: nat, dur: real): real
    requires dur > 0.0
  {
    n as real / dur
  }

  function BitRate(n: nat, dur: real): real
    requires dur > 0.0
  {
    n as real * 8.0 / dur
  }

  /** The window length, never shorter than a microsecond. */
  function Duration(tStart: real, tEnd: real): (d: real)
    ensures d > 0.0
  {
    if tEnd - tStart > 0.000001 then tEnd - tStart else 0.000001
  }

  ghost predicate AllIn(ks: seq<Address>, s: set<Address>) {
    forall i :: 0 <= i < |ks| ==> ks[i] in s
  }

  /** Sum of the latest advertisements. */
  ghost function SumLinks(adv: map<Address, nat>, ks: seq<Address>): nat
    requires AllIn(ks, adv.Keys)
  {
    if ks == [] then 0 else SumLinks(adv, ks[..|ks| - 1]) + adv[ks[|ks| - 1]]
  }

  ghost function Durations(s: BySource, ks: seq<Address>): (v: seq<real>)
    requires AllIn(ks, s.first.Keys) && AllIn(ks, s.last.Keys)
    ensures |v| == |ks| && forall i :: 0 <= i < |v| ==> v[i] == s.last[ks[i]] - s.first[ks[i]]
  {
    seq(|ks|, i requires 0 <= i < |ks| => s.last[ks[i]] - s.first[ks[i]])
  }

  ghost function Rates(s: BySource, ks: seq<Address>, dur: real): (v: seq<real>)
    requires dur > 0.0 && AllIn(ks, s.bytes.Keys)
    ensures |v| == |ks| && forall i :: 0 <= i < |v| ==> v[i] == BitRate(s.bytes[ks[i]], dur)
  {
    seq(|ks|, i requires 0 <= i < |ks| => BitRate(s.bytes[ks[i]], dur))
  }

  lemma AscendingAllIn(s: set<Address>)
    ensures AllIn(Ascending(s), s)
  {
    AscendingDistinct(s);
  }

  /** The emitted columns; standard deviations before their square root. */
  datatype ControlColumns = ControlColumns(tcMessageRate: real, advertisedPerTc: real, mprCount: real, hopCount: real,
                                           midRate: real, hnaRate: real)

  datatype LoadColumns = LoadColumns(overheadRatio: real, routingLoad: Option<real>, packetRate: real, throughput: real,
                                     packetSize: real)

  datatype FlowColumns = FlowColumns(duration: real, durationVariance: real, throughput: real, throughputVariance: real,
                                     bytesPerFlow: real, packetsPerFlow: real)

  ghost predicate ControlMeans(f: ControlColumns, ms: seq<Message>, adv: map<Address, nat>, dur: real)
    requires dur > 0.0
  {
    && f.tcMessageRate == Rate(|TcIds(ms)|, dur)
    && f.advertisedPerTc == Ratio(MessageTotal(ms, TcRows), MessageTotal(ms, TcCopies))
    && AllIn(Ascending(adv.Keys), adv.Keys)
    && f.mprCount == Ratio(SumLinks(adv, Ascending(adv.Keys)), |TcAddresses(ms)|)
    && f.hopCount == Ratio(MessageTotal(ms, TcHops), MessageTotal(ms, TcCopies))
    && f.midRate == Rate(MessageTotal(ms, Mids), dur)
    && f.hnaRate == Rate(MessageTotal(ms, Hnas), dur)
  }

  ghost predicate LoadMeans(f: LoadColumns, hs: seq<Heard>, dur: real)
    requires dur > 0.0
  {
    && f.overheadRatio == Ratio(Total(hs, OlsrBytes), Total(hs, DataBytes))
    && f.routingLoad == (if Total(hs, DataFrames) > 0 then Some(Ratio(Total(hs, OlsrFrames), Total(hs, DataFrames))) else None)
    && f.packetRate == Rate(Total(hs, Frames), dur)
    && f.throughput == BitRate(Total(hs, DataBytes), dur)
    && f.packetSize == Ratio(Total(hs, Bytes), Total(hs, Frames))
  }

  ghost predicate FlowMeans(f: FlowColumns, hs: seq<Heard>, s: BySource, dur: real)
    requires dur > 0.0
  {
    var ks := Ascending(s.bytes.Keys);
    && AllIn(ks, s.first.Keys) && AllIn(ks, s.last.Keys) && AllIn(ks, s.bytes.Keys)
    && f.duration == Mean(Durations(s, ks))
    && f.durationVariance == Variance(Durations(s, ks))
    && f.throughput == f.bytesPerFlow * 8.0 / dur
    && f.throughputVariance == Variance(Rates(s, ks, dur))
    && f.bytesPerFlow == Ratio(Total(hs, DataBytes), |Sources(hs)|)
    && f.packetsPerFlow == Ratio(Total(hs, DataFrames), |Sources(hs)|)
  }

  method SumAdvertised(adv: map<Address, nat>) returns (sum: nat)
    ensures AllIn(Ascending(adv.Keys), adv.Keys) && sum == SumLinks(adv, Ascending(adv.Keys))
  {
    hide Ascending;
    var ks := SortedKeys(adv.Keys);
    AscendingAllIn(adv.Keys);
    sum := 0;
    for i := 0 to |ks|
      invariant AllIn(ks[..i], adv.Keys) && sum == SumLinks(adv, ks[..i])
    {
      assert ks[..i + 1][..i] == ks[..i];
      sum := sum + adv[ks[i]];
    }
    assert ks[..|ks|] == ks;
  }

  method EmitControl(c: Copies, u: Unique, adv: map<Address, nat>, addrsSeen: set<Address>, dur: real, ghost ms: seq<Message>)
    returns (f: ControlColumns)
    requires dur > 0.0
    requires c.Mean(ms) && u.Mean(ms) && AddressesMean(ms, addrsSeen)
    ensures ControlMeans(f, ms, adv, dur)
  {
    hide Ratio, Rate, MessageTotal, TcIds, TcAddresses, Ascending, AllIn, SumLinks, Keys, UniqueRows;
    var sum := SumAdvertised(adv);
    f := ControlColumns(Rate(u.count, dur), Ratio(c.tc.rows, c.tc.count), Ratio(sum, |addrsSeen|),
                        Ratio(c.tc.hopSum, c.tc.count), Rate(c.midCount, dur), Rate(c.hnaCount, dur));
  }

  method EmitLoad(t: Totals, dur: real, ghost hs: seq<Heard>) returns (f: LoadColumns)
    requires dur > 0.0 && t.Mean(hs)
    ensures LoadMeans(f, hs, dur)
  {
    hide Ratio, Rate, BitRate, Total;
    var load := if t.data.frames > 0 then Some(Ratio(t.olsr.frames, t.data.frames)) else None;
    f := LoadColumns(Ratio(t.olsr.bytes, t.data.bytes), load, Rate(t.all.frames, dur), BitRate(t.data.bytes, dur),
                     Ratio(t.all.bytes, t.all.frames));
  }

  method FlowVectors(s: BySource, dur: real) returns (durations: seq<real>, rates: seq<real>)
    requires dur > 0.0 && s.first.Keys == s.last.Keys == s.bytes.Keys
    ensures var ks := Ascending(s.bytes.Keys);
            && AllIn(ks, s.bytes.Keys)
            && durations == Durations(s, ks) && rates == Rates(s, ks, dur)
  {
    hide Ascending, BitRate;
    var ks := SortedKeys(s.first.Keys);
    AscendingAllIn(s.bytes.Keys);
    durations, rates := [], [];
    for i := 0 to |ks|
      invariant |durations| == |rates| == i
      invariant forall k :: 0 <= k < i ==> durations[k] == s.last[ks[k]] - s.first[ks[k]]
      invariant forall k :: 0 <= k < i ==> rates[k] == BitRate(s.bytes[ks[k]], dur)
    {
      durations := durations + [s.last[ks[i]] - s.first[ks[i]]];
      rates := rates + [BitRate(s.bytes[ks[i]], dur)];
    }
  }

  method EmitFlows(s: BySource, t: Totals, dur: real, ghost hs: seq<Heard>) returns (f: FlowColumns)
    requires dur > 0.0 && t.Mean(hs) && s.Mean(hs)
    ensures FlowMeans(f, hs, s, dur)
  {
    hide Ratio, BitRate, Total, Sources, FirstHeard, LastHeard, Mean, Variance, Ascending, AllIn, Durations, Rates;
    var durations, rates := FlowVectors(s, dur);
    var mean := ComputeMean(durations);
    var variance := ComputeVariance(durations);
    var rateVariance := ComputeVariance(rates);
    var perFlow := Ratio(t.data.bytes, |s.bytes.Keys|);
    f := FlowColumns(mean, variance, perFlow * 8.0 / dur, rateVariance, perFlow, Ratio(t.data.frames, |s.frames.Keys|));
  }

  // ---------------------------------------------------------------------------
  // What the emitted columns satisfy
  // ---------------------------------------------------------------------------

  lemma {:induction false} TotalsNest(hs: seq<Heard>)
    ensures Total(hs, OlsrFrames) <= Total(hs, DataFrames) <= Total(hs, Frames)
    ensures Total(hs, OlsrBytes) <= Total(hs, DataBytes) <= Total(hs, Bytes)
    decreases |hs|
  {
    if hs != [] {
      TotalsNest(hs[..|hs| - 1]);
    }
  }

  lemma ShareBound(a: nat, b: nat)
    requires a <= b && b > 0
    ensures 0.0 <= Ratio(a, b) <= 1.0
  {
    var q, d := Ratio(a, b), b as real;
    assert q * d == a as real;
    MultipleOrder(q, d);
  }

  lemma MultipleOrder(q: real, d: real)
    requires d > 0.0
    ensures q > 1.0 ==> q * d > d
    ensures q < 0.0 ==> q * d < 0.0
  {
  }

  /** The routing load is a share: undefined exactly when no IPv4 frame was heard, else in [0, 1]. */
  lemma RoutingLoadIsAShare(f: LoadColumns, hs: seq<Heard>, dur: real)
    requires dur > 0.0 && LoadMeans(f, hs, dur)
    ensures f.routingLoad.None? <==> forall i :: 0 <= i < |hs| ==> !IsIp(hs[i].frame)
    ensures f.routingLoad.Some? ==> 0.0 <= f.routingLoad.value <= 1.0
  {
    hide Ratio, Rate, BitRate;
    TotalsNest(hs);
    HeardIp(hs);
    if Total(hs, DataFrames) > 0 {
      ShareBound(Total(hs, OlsrFrames), Total(hs, DataFrames));
    }
  }

  lemma {:induction false} HeardIp(hs: seq<Heard>)
    ensures Total(hs, DataFrames) == 0 <==> forall i :: 0 <= i < |hs| ==> !IsIp(hs[i].frame)
    decreases |hs|
  {
    if hs != [] {
      HeardIp(hs[..|hs| - 1]);
      assert hs == hs[..|hs| - 1] + [hs[|hs| - 1]];
    }
  }

  /** Bytes (or frames) per source, in the order of the map. */
  ghost function PerSource(hs: seq<Heard>, ks: seq<Address>, perByte: bool): (v: seq<real>)
    ensures |v| == |ks| && forall i :: 0 <= i < |v| ==> v[i] == Total(hs, ColumnFrom(perByte, ks[i])) as real
  {
    seq(|ks|, i requires 0 <= i < |ks| => Total(hs, ColumnFrom(perByte, ks[i])) as real)
  }

  lemma {:induction false} SumOfPerSource(hs: seq<Heard>, ks: seq<Address>, perByte: bool)
    ensures Sum(PerSource(hs, ks, perByte)) == SumFrom(hs, ks, perByte) as real
    decreases |ks|
  {
    hide Total;
    if ks != [] {
      SumOfPerSource(hs, ks[..|ks| - 1], perByte);
      assert PerSource(hs, ks, perByte)[..|ks| - 1] == PerSource(hs, ks[..|ks| - 1], perByte);
    }
  }

  /** Because the maps partition the totals, the per-flow columns, computed as totals over the number of
      sources, are the means of the per-source values: bytes, packets and bits per second. */
  lemma PerFlowColumnsAreMeans(f: FlowColumns, hs: seq<Heard>, s: BySource, dur: real)
    requires dur > 0.0 && s.Mean(hs) && FlowMeans(f, hs, s, dur)
    ensures f.bytesPerFlow == Mean(PerSource(hs, Ascending(Sources(hs)), true))
    ensures f.packetsPerFlow == Mean(PerSource(hs, Ascending(Sources(hs)), false))
  {
    hide Total, Sources, SumFrom, Sum, Variance, Durations, Rates, BitRate, Ascending, PerSource;
    var ks := Ascending(Sources(hs));
    AscendingOf(Sources(hs));
    AscendingDistinct(Sources(hs));
    SourcesPartition(hs, ks, true);
    SourcesPartition(hs, ks, false);
    SumOfPerSource(hs, ks, true);
    SumOfPerSource(hs, ks, false);
    SizeOfPerSource(hs, ks, true);
    SizeOfPerSource(hs, ks, false);
  }

  lemma ThroughputOf(f: FlowColumns, hs: seq<Heard>, s: BySource, dur: real)
    requires dur > 0.0 && FlowMeans(f, hs, s, dur)
    ensures f.throughput == f.bytesPerFlow * 8.0 / dur
  {
  }

  lemma SourcesAscending(hs: seq<Heard>)
    ensures forall i :: 0 <= i < |Ascending(Sources(hs))| ==> Ascending(Sources(hs))[i] in Sources(hs)
  {
    hide Ascending, Sources;
    AscendingOf(Sources(hs));
  }

  /** The flow throughput is the mean of the bit rates of the sources. */
  lemma ThroughputIsMeanRate(f: FlowColumns, hs: seq<Heard>, s: BySource, dur: real)
    requires dur > 0.0 && s.Mean(hs) && FlowMeans(f, hs, s, dur)
    ensures AllIn(Ascending(Sources(hs)), s.bytes.Keys)
    ensures f.throughput == Mean(Rates(s, Ascending(Sources(hs)), dur))
  {
    hide *;
    PerFlowColumnsAreMeans(f, hs, s, dur);
    ThroughputOf(f, hs, s, dur);
    SourcesAscending(hs);
    RatesOfPerSource(hs, s, Ascending(Sources(hs)), dur);
  }

  lemma RateIsScaled(x: real, y: real, n: real, dur: real)
    requires n > 0.0 && dur > 0.0 && x * dur == y * 8.0
    ensures x / n == (y / n) * 8.0 / dur
  {
    var q := y / n;
    assert q * n == y;
    assert (q * 8.0 / dur) * dur == q * 8.0;
    var r := q * 8.0 / dur;
    assert (r * n) * dur == (q * n) * 8.0 by { Swap(r, n, dur); Swap(q, n, 8.0); }
    assert r * n == x by { Cancel(r * n, x, dur); }
    assert (r * n) / n == r;
  }

  lemma Swap(a: real, b: real, c: real)
    ensures (a * b) * c == (a * c) * b
  {
  }

  lemma Cancel(a: real, b: real, c: real)
    requires c > 0.0 && a * c == b * c
    ensures a == b
  {
    assert (a * c) / c == a && (b * c) / c == b;
  }

  lemma {:induction false} SumOfRates(hs: seq<Heard>, s: BySource, ks: seq<Address>, dur: real)
    requires dur > 0.0 && s.Mean(hs) && forall i :: 0 <= i < |ks| ==> ks[i] in Sources(hs)
    ensures AllIn(ks, s.bytes.Keys)
    ensures Sum(Rates(s, ks, dur)) * dur == Sum(PerSource(hs, ks, true)) * 8.0
    decreases |ks|
  {
    hide Total, Sources, FirstHeard, LastHeard, BitRate;
    if ks != [] {
      var m := |ks| - 1;
      SumOfRates(hs, s, ks[..m], dur);
      assert Rates(s, ks, dur)[..m] == Rates(s, ks[..m], dur);
      assert PerSource(hs, ks, true)[..m] == PerSource(hs, ks[..m], true);
      BitsPerSecond(s.bytes[ks[m]], dur);
      Add(Sum(Rates(s, ks[..m], dur)), BitRate(s.bytes[ks[m]], dur), dur);
    }
  }

  lemma Add(a: real, b: real, c: real)
    ensures (a + b) * c == a * c + b * c
  {
  }

  /** A bit rate over a window is eight bits for every byte of it. */
  lemma BitsPerSecond(bytes: nat, dur: real)
    requires dur > 0.0
    ensures BitRate(bytes, dur) * dur == bytes as real * 8.0
  {
  }

  lemma RatesOfPerSource(hs: seq<Heard>, s: BySource, ks: seq<Address>, dur: real)
    requires dur > 0.0 && s.Mean(hs) && forall i :: 0 <= i < |ks| ==> ks[i] in Sources(hs)
    ensures AllIn(ks, s.bytes.Keys)
    ensures Mean(Rates(s, ks, dur)) == Mean(PerSource(hs, ks, true)) * 8.0 / dur
  {
    hide Sum, Rates, PerSource, Sources, BySource.Mean;
    SumOfRates(hs, s, ks, dur);
    SizeOfPerSource(hs, ks, true);
    SizeOfRates(s, ks, dur);
    if ks != [] {
      RateIsScaled(Sum(Rates(s, ks, dur)), Sum(PerSource(hs, ks, true)), |ks| as real, dur);
    }
  }

  lemma SizeOfRates(s: BySource, ks: seq<Address>, dur: real)
    requires dur > 0.0 && AllIn(ks, s.bytes.Keys)
    ensures |Rates(s, ks, dur)| == |ks|
  {
  }

  lemma {:induction false} EveryFrameCounts(hs: seq<Heard>)
    ensures Total(hs, Frames) == |hs|
    decreases |hs|
  {
    if hs != [] {
      EveryFrameCounts(hs[..|hs| - 1]);
    }
  }

  /** Over a window longer than a microsecond, the emitted rates times its length give back what was heard:
      the frames, the bits of the IPv4 frames, the distinct TC messages, and the MID and HNA messages. */
  lemma RatesGiveCounts(control: ControlColumns, load: LoadColumns, hs: seq<Heard>, ms: seq<Message>,
                        adv: map<Address, nat>, tStart: real, tEnd: real, length: real)
    requires ControlMeans(control, ms, adv, Duration(tStart, tEnd)) && LoadMeans(load, hs, Duration(tStart, tEnd))
    requires length == tEnd - tStart && length > 0.000001
    ensures load.packetRate * length == |hs| as real
    ensures load.throughput * length == Total(hs, DataBytes) as real * 8.0
    ensures control.tcMessageRate * length == |TcIds(ms)| as real
    ensures control.midRate * length == MessageTotal(ms, Mids) as real
    ensures control.hnaRate * length == MessageTotal(ms, Hnas) as real
  {
    hide *;
    DurationIs(tStart, tEnd);
    LoadRates(load, hs, length);
    ControlRates(control, ms, adv, length);
    EveryFrameCounts(hs);
    BitsPerSecond(Total(hs, DataBytes), length);
    PerSecond(Total(hs, Frames), length);
    PerSecond(|TcIds(ms)|, length);
    PerSecond(MessageTotal(ms, Mids), length);
    PerSecond(MessageTotal(ms, Hnas), length);
  }

  lemma DurationIs(tStart: real, tEnd: real)
    ensures tEnd - tStart > 0.000001 ==> Duration(tStart, tEnd) == tEnd - tStart
    ensures tEnd - tStart <= 0.000001 ==> Duration(tStart, tEnd) == 0.000001
  {
  }

  lemma LoadRates(load: LoadColumns, hs: seq<Heard>, dur: real)
    requires dur > 0.0 && LoadMeans(load, hs, dur)
    ensures load.packetRate == Rate(Total(hs, Frames), dur) && load.throughput == BitRate(Total(hs, DataBytes), dur)
  {
    hide Total, Rate, BitRate, Ratio;
  }

  lemma ControlRates(control: ControlColumns, ms: seq<Message>, adv: map<Address, nat>, dur: real)
    requires dur > 0.0 && ControlMeans(control, ms, adv, dur)
    ensures control.tcMessageRate == Rate(|TcIds(ms)|, dur)
    ensures control.midRate == Rate(MessageTotal(ms, Mids), dur) && control.hnaRate == Rate(MessageTotal(ms, Hnas), dur)
  {
    hide MessageTotal, TcIds, Ratio, Ascending, SumLinks, AllIn, Rate;
  }

  lemma PerSecond(n: nat, dur: real)
    requires dur > 0.0
    ensures Rate(n, dur) * dur == n as real
  {
  }

  lemma SizeOfPerSource(hs: seq<Heard>, ks: seq<Address>, perByte: bool)
    ensures |PerSource(hs, ks, perByte)| == |ks|
  {
  }

  /** A second copy of a TC message changes no de-duplicated count. */
  lemma CopiesAreNotCounted(ms: seq<Message>, m: Message)
    requires m.body.Tc? && (m.originator, m.sequence) in TcIds(ms)
    ensures |TcIds(ms + [m])| == |TcIds(ms)| && UniqueRows(ms + [m]) == UniqueRows(ms)
    ensures MessageTotal(ms + [m], TcCopies) == MessageTotal(ms, TcCopies) + 1
  {
    hide TcIds;
    TcIdsNext(ms, m);
    UniqueRowsNext(ms, m);
    MessageTotalNext(ms, m, TcCopies);
    assert TcIds(ms) + {(m.originator, m.sequence)} == TcIds(ms);
  }

  // ---------------------------------------------------------------------------
  // The network-wide oracle's message loop
  // ---------------------------------------------------------------------------

  /** The oracle's counters for one packet. */
  datatype OracleCounts = OracleCounts(hello: nat, tc: nat, mid: nat, hna: nat, tcRows: nat) {
    ghost predicate Mean(ms: seq<Message>) {
      && hello == MessageTotal(ms, Hellos) && tc == MessageTotal(ms, TcCopies) && mid == MessageTotal(ms, Mids)
      && hna == MessageTotal(ms, Hnas) && tcRows == MessageTotal(ms, TcRows)
    }
  }

  function CountMessage(c: OracleCounts, m: Message): OracleCounts {
    match m.body
    case Hello(_, _, _) => c.(hello := c.hello + 1)
    case Tc(_, neighbors) => c.(tc := c.tc + 1, tcRows := c.tcRows + |neighbors|)
    case Mid(_) => c.(mid := c.mid + 1)
    case Hna(_) => c.(hna := c.hna + 1)
  }

  lemma CountMessageMeans(c: OracleCounts, ms: seq<Message>, m: Message)
    requires c.Mean(ms)
    ensures CountMessage(c, m).Mean(ms + [m])
  {
    hide MessageTotal;
    forall k: MessageColumn ensures MessageTotal(ms + [m], k) == MessageTotal(ms, k) + MessageWeight(m, k) {
      MessageTotalNext(ms, m, k);
    }
  }

  lemma NothingCounted(zero: nat)
    requires zero == 0
    ensures OracleCounts(zero, zero, zero, zero, zero).Mean([])
  {
  }

  /** The oracle's loop over the same bytes: it goes on only while a message header fits.  `None` when
      reading a message aborts the program. */
  method CountOracle(packetLength: u16, bytes: seq<byte>) returns (r: Option<OracleCounts>)
    ensures var parsed := Parse(bytes, Budget(packetLength, bytes), HEADER_SIZE);
            if parsed.Some? then r.Some? && r.value.Mean(parsed.value) else r.None?
  {
    hide Parse, Decode, OracleCounts.Mean;
    var p := bytes;
    var remaining: nat := if packetLength >= PACKET_HEADER then packetLength - PACKET_HEADER else 0;
    if remaining > |p| { remaining := |p|; }
    ghost var parsed: seq<Message>, target := [], Parse(bytes, Budget(packetLength, bytes), HEADER_SIZE);
    PrependNone(target, parsed);
    var zero: nat := 0;
    NothingCounted(zero);
    var c := OracleCounts(zero, zero, zero, zero, zero);
    while remaining >= HEADER_SIZE
      invariant remaining <= |p|
      invariant target == Prepend(parsed, Parse(p, remaining, HEADER_SIZE))
      invariant c.Mean(parsed)
      decreases remaining
    {
      OracleUnfold(p, remaining);
      if p[0] < 1 || p[0] > 4 { break; }
      var decoded := Decode(p);
      DecodeConsumes(p);
      if decoded.None? { return None; }
      var (m, consumed) := decoded.value;
      if consumed > remaining { break; }
      PrependOne(parsed, m, Parse(p[consumed..], remaining - consumed, HEADER_SIZE));
      remaining := remaining - consumed;
      p := p[consumed..];
      CountMessageMeans(c, parsed, m);
      c := CountMessage(c, m);
      parsed := parsed + [m];
    }
    OracleUnfold(p, remaining);
    PrependNone(target, parsed);
    return Some(c);
  }

  lemma OracleUnfold(p: seq<byte>, remaining: nat)
    requires remaining <= |p|
    ensures remaining < HEADER_SIZE ==> Parse(p, remaining, HEADER_SIZE) == Some([])
    ensures remaining >= HEADER_SIZE ==>
              if !(1 <= p[0] <= 4) then Parse(p, remaining, HEADER_SIZE) == Some([])
              else match Decode(p)
                case None => Parse(p, remaining, HEADER_SIZE) == None
                case Some((m, consumed)) =>
                  Parse(p, remaining, HEADER_SIZE) ==
                    if consumed > remaining then Some([])
                    else Prepend([m], Parse(p[consumed..], remaining - consumed, HEADER_SIZE))
  {
    hide Decode;
  }

  /** On every packet that does not end in a bad tail, the collector and the oracle count the same
      HELLO, TC, MID and HNA messages and the same advertised links. */
  lemma OracleAndCollectorAgree(f: Frame, before: seq<Message>, c: OracleCounts)
    requires f.layers.Ip? && f.layers.udp.Olsr?
    requires var b := f.layers.udp.bytes; var n := Budget(f.layers.udp.packetLength, b);
             && !BadTail(b, n) && Parse(b, n, HEADER_SIZE).Some? && c.Mean(Parse(b, n, HEADER_SIZE).value)
    ensures MessagesOf(f).Some?
    ensures var ms := before + MessagesOf(f).value;
            && MessageTotal(ms, Hellos) == MessageTotal(before, Hellos) + c.hello
            && MessageTotal(ms, TcCopies) == MessageTotal(before, TcCopies) + c.tc
            && MessageTotal(ms, Mids) == MessageTotal(before, Mids) + c.mid
            && MessageTotal(ms, Hnas) == MessageTotal(before, Hnas) + c.hna
            && MessageTotal(ms, TcRows) == MessageTotal(before, TcRows) + c.tcRows
  {
    hide Parse, MessageTotal, BadTail;
    var b := f.layers.udp.bytes;
    LoopsAgree(b, Budget(f.layers.udp.packetLength, b));
    forall k: MessageColumn
      ensures MessageTotal(before + MessagesOf(f).value, k) ==
              MessageTotal(before, k) + MessageTotal(MessagesOf(f).value, k)
    {
      MessageTotalConcat(before, MessagesOf(f).value, k);
    }
  }

  lemma {:induction false} MessageTotalConcat(a: seq<Message>, b: seq<Message>, k: MessageColumn)
    ensures MessageTotal(a + b, k) == MessageTotal(a, k) + MessageTotal(b, k)
    decreases |b|
  {
    hide MessageWeight;
    if b == [] {
      assert a + b == a;
    } else {
      MessageTotalConcat(a, b[..|b| - 1], k);
      assert (a + b)[..|a + b| - 1] == a + b[..|b| - 1];
    }
  }

  // ---------------------------------------------------------------------------
  // Written packets and bad tails
  // ---------------------------------------------------------------------------

  /** A frame heard with a packet written from the messages `ms`, and padding behind it. */
  ghost predicate Carries(f: Frame, ms: seq<Message>, padding: seq<byte>) {
    && f.layers.Ip? && f.layers.udp.Olsr?
    && (forall i :: 0 <= i < |ms| ==> Sendable(ms[i]))
    && f.layers.udp.bytes == EncodeAll(ms) + padding
    && f.layers.udp.packetLength == PACKET_HEADER + |EncodeAll(ms)|
  }

  /** The length field bounds both loops to what was written. */
  lemma WrittenPacketIsRead(f: Frame, ms: seq<Message>, padding: seq<byte>)
    requires Carries(f, ms, padding)
    ensures MessagesOf(f) == Some(ms)
    ensures Parse(f.layers.udp.bytes, Budget(f.layers.udp.packetLength, f.layers.udp.bytes), HEADER_SIZE) == Some(ms)
  {
    hide Parse, EncodeAll, Sendable;
    ParsesExactly(ms, padding, 1);
    ParsesExactly(ms, padding, HEADER_SIZE);
  }

  /** Observing a frame that carries written messages adds exactly these messages to what the collector
      has seen, and the oracle counts exactly these. */
  method ObserveWritten(collector: FeatureCollector, f: Frame, now: real, ghost ms: seq<Message>, ghost padding: seq<byte>)
    returns (oracle: Option<OracleCounts>)
    requires collector.Valid() && Carries(f, ms, padding)
    modifies collector
    ensures collector.Valid() && collector.messages == old(collector.messages) + ms
    ensures collector.heard == old(collector.heard) + [Heard(f, now)]
    ensures oracle.Some? && oracle.value.Mean(ms)
  {
    hide Carries, MessagesOf, Parse, FeatureCollector.Valid, OracleCounts.Mean, Budget;
    WrittenPacketIsRead(f, ms, padding);
    CarriesOlsr(f, ms, padding);
    var ok := collector.ObserveSniffedFrame(f, now);
    oracle := CountOracle(f.layers.udp.packetLength, f.layers.udp.bytes);
  }

  lemma CarriesOlsr(f: Frame, ms: seq<Message>, padding: seq<byte>)
    requires Carries(f, ms, padding)
    ensures f.layers.Ip? && f.layers.udp.Olsr?
  {
  }

  /** A packet of one byte, a HELLO type byte. */
  function OneByteFrame(source: Address): Frame {
    Frame(61, Ip(source, Olsr(5, [1])))
  }

  lemma OneByteIsBadTail(source: Address)
    ensures MessagesOf(OneByteFrame(source)).None?
    ensures Budget(5, [1]) == 1 && Parse([1], 1, HEADER_SIZE) == Some([])
  {
    assert Decode([1]).None?;
  }

  /** On a bad tail the collector aborts while the oracle counts nothing and goes on. */
  method CollectorAbortsOracleDoesNot(source: Address, now: real) returns (observed: bool, oracle: Option<OracleCounts>)
    ensures !observed && oracle.Some? && oracle.value.Mean([])
  {
    hide MessagesOf, Parse, FeatureCollector.Valid, OracleCounts.Mean, Budget;
    OneByteIsBadTail(source);
    var collector := new FeatureCollector(now);
    observed := collector.ObserveSniffedFrame(OneByteFrame(source), now);
    oracle := CountOracle(5, [1]);
  }
}
