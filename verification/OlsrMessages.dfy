/** OLSR messages on the wire (sections 3.3, 5.1, 6.1, 9.1 and 12.1 of RFC 3626), and the two loops
    that take them out of a packet. */
module OlsrMessages {
  import opened Finite

  type byte = x: nat | x < 0x100
  type u16 = x: nat | x < 0x1_0000
  type Address = x: nat | x < 0x1_0000_0000

  // ---------------------------------------------------------------------------
  // Integers in network order
  // ---------------------------------------------------------------------------

  function U16(n: u16): (b: seq<byte>)
    ensures |b| == 2
  {
    [n / 0x100, n % 0x100]
  }

  function U32(n: Address): (b: seq<byte>)
    ensures |b| == 4
  {
    U16(n / 0x1_0000) + U16(n % 0x1_0000)
  }

  function ReadU16(b: seq<byte>): u16
    requires |b| >= 2
  {
    var high: int := b[0];
    high * 0x100 + b[1]
  }

  function ReadU32(b: seq<byte>): Address
    requires |b| >= 4
  {
    var high: int := ReadU16(b);
    high * 0x1_0000 + ReadU16(b[2..])
  }

  lemma U16RoundTrip(n: u16, rest: seq<byte>)
    ensures ReadU16(U16(n) + rest) == n
  {
  }

  lemma U32RoundTrip(n: Address, rest: seq<byte>)
    ensures ReadU32(U32(n) + rest) == n
  {
    var b := U32(n) + rest;
    assert b[..2] == U16(n / 0x1_0000);
    assert b[2..] == U16(n % 0x1_0000) + rest;
  }

  // ---------------------------------------------------------------------------
  // Messages
  // ---------------------------------------------------------------------------

  datatype Link = Link(code: byte, neighbors: seq<Address>)

  datatype Body =
    | Hello(hTime: byte, willingness: byte, links: seq<Link>)
    | Tc(ansn: u16, neighbors: seq<Address>)
    | Mid(interfaces: seq<Address>)
    | Hna(associations: seq<(Address, Address)>)

  datatype Message = Message(vTime: byte, originator: Address, timeToLive: byte, hopCount: byte, sequence: u16, body: Body)

  function TypeCode(b: Body): byte {
    match b
    case Hello(_, _, _) => 1
    case Tc(_, _) => 2
    case Mid(_) => 3
    case Hna(_) => 4
  }

  const HEADER_SIZE: nat := 12

  function LinksSize(links: seq<Link>): nat {
    if links == [] then 0 else 4 + 4 * |links[0].neighbors| + LinksSize(links[1..])
  }

  function BodySize(b: Body): nat {
    match b
    case Hello(_, _, links) => 4 + LinksSize(links)
    case Tc(_, neighbors) => 4 + 4 * |neighbors|
    case Mid(interfaces) => 4 * |interfaces|
    case Hna(associations) => 8 * |associations|
  }

  function Size(m: Message): nat {
    HEADER_SIZE + BodySize(m.body)
  }

  /** The size fits its 16-bit field. */
  predicate Sendable(m: Message) {
    Size(m) < 0x1_0000
  }

  // ---------------------------------------------------------------------------
  // Serialization
  // ---------------------------------------------------------------------------

  function Addresses(xs: seq<Address>): (b: seq<byte>)
    ensures |b| == 4 * |xs|
  {
    if xs == [] then [] else U32(xs[0]) + Addresses(xs[1..])
  }

  function Pairs(ps: seq<(Address, Address)>): (b: seq<byte>)
    ensures |b| == 8 * |ps|
  {
    if ps == [] then [] else U32(ps[0].0) + U32(ps[0].1) + Pairs(ps[1..])
  }

  function EncodeLinks(links: seq<Link>): (b: seq<byte>)
    requires LinksSize(links) < 0x1_0000
    ensures |b| == LinksSize(links)
  {
    if links == [] then [] else
      var l := links[0];
      [l.code, 0] + U16(4 + 4 * |l.neighbors|) + Addresses(l.neighbors) + EncodeLinks(links[1..])
  }

  function EncodeBody(b: Body): (r: seq<byte>)
    requires HEADER_SIZE + BodySize(b) < 0x1_0000
    ensures |r| == BodySize(b)
  {
    match b
    case Hello(hTime, willingness, links) => [0, 0, hTime, willingness] + EncodeLinks(links)
    case Tc(ansn, neighbors) => U16(ansn) + [0, 0] + Addresses(neighbors)
    case Mid(interfaces) => Addresses(interfaces)
    case Hna(associations) => Pairs(associations)
  }

  function EncodeHeader(m: Message): (r: seq<byte>)
    requires Sendable(m)
    ensures |r| == HEADER_SIZE
  {
    [TypeCode(m.body), m.vTime] + U16(Size(m)) + U32(m.originator) + [m.timeToLive, m.hopCount] + U16(m.sequence)
  }

  function Encode(m: Message): (r: seq<byte>)
    requires Sendable(m)
    ensures |r| == Size(m)
  {
    EncodeHeader(m) + EncodeBody(m.body)
  }

  // ---------------------------------------------------------------------------
  // Where the fields are on the wire
  // ---------------------------------------------------------------------------

  /** The number in two, or four, bytes from position `k` on, the most significant first. */
  ghost function TwoAt(b: seq<byte>, k: nat): int
    requires k + 2 <= |b|
  {
    var high: int, low: int := b[k], b[k + 1];
    high * 256 + low
  }

  ghost function FourAt(b: seq<byte>, k: nat): int
    requires k + 4 <= |b|
  {
    TwoAt(b, k) * 0x1_0000 + TwoAt(b, k + 2)
  }

  lemma U32Layout(n: Address)
    ensures FourAt(U32(n), 0) == n
  {
    var high, low := n / 0x1_0000, n % 0x1_0000;
    assert U32(n)[..2] == U16(high) && U32(n)[2..] == U16(low);
    assert (high / 0x100) * 256 + high % 0x100 == high;
    assert (low / 0x100) * 256 + low % 0x100 == low;
  }

  lemma ByteAtPart(b: seq<byte>, k: nat, part: seq<byte>, j: nat)
    requires k + |part| <= |b| && b[k..k + |part|] == part && j < |part|
    ensures b[k + j] == part[j]
  {
  }

  lemma FourAtPart(b: seq<byte>, k: nat, part: seq<byte>, j: nat)
    requires k + |part| <= |b| && b[k..k + |part|] == part && j + 4 <= |part|
    ensures FourAt(b, k + j) == FourAt(part, j)
  {
    ByteAtPart(b, k, part, j);
    ByteAtPart(b, k, part, j + 1);
    ByteAtPart(b, k, part, j + 2);
    ByteAtPart(b, k, part, j + 3);
  }

  /** The message header of section 3.3 of RFC 3626: type, validity time, message size, originator, time to
      live, hop count and sequence number. */
  ghost predicate HeaderAt(b: seq<byte>, m: Message)
    requires |b| >= 12
  {
    && b[0] == (match m.body case Hello(_, _, _) => 1 case Tc(_, _) => 2 case Mid(_) => 3 case Hna(_) => 4)
    && b[1] == m.vTime && TwoAt(b, 2) == |b| && FourAt(b, 4) == m.originator
    && b[8] == m.timeToLive && b[9] == m.hopCount && TwoAt(b, 10) == m.sequence
  }

  lemma HeaderLayout(m: Message)
    requires Sendable(m)
    ensures |Encode(m)| >= 12 && HeaderAt(Encode(m), m)
  {
    hide EncodeBody, Size, U32;
    var h, b := EncodeHeader(m), Encode(m);
    var front := [TypeCode(m.body), m.vTime] + U16(Size(m));
    assert h == front + U32(m.originator) + ([m.timeToLive, m.hopCount] + U16(m.sequence));
    assert b[4..8] == U32(m.originator);
    U32Layout(m.originator);
    FourAtPart(b, 4, U32(m.originator), 0);
    assert b[..4] == front && b[8..12] == [m.timeToLive, m.hopCount] + U16(m.sequence);
    assert b[2] == front[2] && b[3] == front[3] && b[10] == b[8..12][2] && b[11] == b[8..12][3];
  }

  lemma {:induction false} AddressesLayout(xs: seq<Address>, i: nat)
    requires i < |xs|
    ensures FourAt(Addresses(xs), 4 * i) == xs[i]
    decreases |xs|
  {
    hide U32;
    var b, rest := Addresses(xs), Addresses(xs[1..]);
    if i == 0 {
      U32Layout(xs[0]);
      FourAtPart(b, 0, U32(xs[0]), 0);
    } else {
      AddressesLayout(xs[1..], i - 1);
      assert b[4..4 + |rest|] == rest;
      FourAtPart(b, 4, rest, 4 * (i - 1));
    }
  }

  lemma PairLayout(p: (Address, Address), rest: seq<byte>)
    ensures var b := U32(p.0) + U32(p.1) + rest; FourAt(b, 0) == p.0 && FourAt(b, 4) == p.1
  {
    hide U32, FourAt;
    var b := U32(p.0) + U32(p.1) + rest;
    U32Layout(p.0);
    U32Layout(p.1);
    assert b[0..4] == U32(p.0) && b[4..8] == U32(p.1);
    FourAtPart(b, 0, U32(p.0), 0);
    FourAtPart(b, 4, U32(p.1), 0);
  }

  lemma {:induction false} PairsLayout(ps: seq<(Address, Address)>, i: nat)
    requires i < |ps|
    ensures FourAt(Pairs(ps), 8 * i) == ps[i].0 && FourAt(Pairs(ps), 8 * i + 4) == ps[i].1
    decreases |ps|
  {
    hide U32, FourAt;
    var b, rest := Pairs(ps), Pairs(ps[1..]);
    PairLayout(ps[0], rest);
    if i > 0 {
      PairsLayout(ps[1..], i - 1);
      assert b[8..8 + |rest|] == rest;
      FourAtPart(b, 8, rest, 8 * (i - 1));
      FourAtPart(b, 8, rest, 8 * (i - 1) + 4);
    }
  }

  /** A link block of section 6.1.1 of RFC 3626, at position `k`: link code, a reserved byte, the size of the
      block and the neighbours' addresses. */
  ghost predicate LinkAt(b: seq<byte>, k: nat, l: Link) {
    && k + 4 + 4 * |l.neighbors| <= |b|
    && b[k] == l.code && b[k + 1] == 0 && TwoAt(b, k + 2) == 4 + 4 * |l.neighbors|
    && forall i :: 0 <= i < |l.neighbors| ==> FourAt(b, k + 4 + 4 * i) == l.neighbors[i]
  }

  lemma LinkAtPart(b: seq<byte>, k: nat, part: seq<byte>, j: nat, l: Link)
    requires k + |part| <= |b| && b[k..k + |part|] == part && LinkAt(part, j, l)
    ensures LinkAt(b, k + j, l)
  {
    ByteAtPart(b, k, part, j);
    ByteAtPart(b, k, part, j + 1);
    ByteAtPart(b, k, part, j + 2);
    ByteAtPart(b, k, part, j + 3);
    forall i | 0 <= i < |l.neighbors| ensures FourAt(b, k + j + 4 + 4 * i) == l.neighbors[i] {
      FourAtPart(b, k, part, j + 4 + 4 * i);
    }
  }

  lemma FirstLink(l: Link, rest: seq<byte>)
    requires 4 + 4 * |l.neighbors| < 0x1_0000
    ensures LinkAt([l.code, 0] + U16(4 + 4 * |l.neighbors|) + Addresses(l.neighbors) + rest, 0, l)
  {
    hide Addresses;
    var a := Addresses(l.neighbors);
    var front := [l.code, 0] + U16(4 + 4 * |l.neighbors|);
    var b := front + a + rest;
    assert b[..4] == front && b[4..4 + |a|] == a;
    assert b[2] == front[2] && b[3] == front[3] && b[0] == front[0] && b[1] == front[1];
    forall i | 0 <= i < |l.neighbors| ensures FourAt(b, 0 + 4 + 4 * i) == l.neighbors[i] {
      AddressesLayout(l.neighbors, i);
      FourAtPart(b, 4, a, 4 * i);
    }
  }

  lemma {:induction false} LinksLayout(links: seq<Link>, i: nat)
    requires LinksSize(links) < 0x1_0000 && i < |links|
    ensures LinkAt(EncodeLinks(links), LinksSize(links[..i]), links[i])
    decreases |links|
  {
    hide LinkAt, Addresses, U16;
    var l, rest := links[0], EncodeLinks(links[1..]);
    var b := EncodeLinks(links);
    if i == 0 {
      FirstLink(l, rest);
    } else {
      var n := 4 + 4 * |l.neighbors|;
      LinksLayout(links[1..], i - 1);
      assert b[n..n + |rest|] == rest;
      assert links[..i][1..] == links[1..][..i - 1];
      LinkAtPart(b, n, rest, LinksSize(links[1..][..i - 1]), links[i]);
    }
  }

  /** The addresses `xs` are in the bytes from position `k` on, one after the other. */
  ghost predicate AddressesAt(b: seq<byte>, k: nat, xs: seq<Address>) {
    k + 4 * |xs| <= |b| && forall i :: 0 <= i < |xs| ==> FourAt(b, k + 4 * i) == xs[i]
  }

  ghost predicate PairsAt(b: seq<byte>, k: nat, ps: seq<(Address, Address)>) {
    && k + 8 * |ps| <= |b|
    && forall i :: 0 <= i < |ps| ==> FourAt(b, k + 8 * i) == ps[i].0 && FourAt(b, k + 8 * i + 4) == ps[i].1
  }

  /** Link blocks, each behind those before it. */
  ghost predicate LinksAt(b: seq<byte>, k: nat, links: seq<Link>) {
    forall i :: 0 <= i < |links| ==> LinkAt(b, k + LinksSize(links[..i]), links[i])
  }

  /** The message bodies of sections 6.1.1, 9.1, 5.1 and 12.1 of RFC 3626, from position `k` on. */
  ghost predicate BodyAt(b: seq<byte>, k: nat, body: Body) {
    match body
    case Hello(hTime, willingness, links) =>
      && k + 4 <= |b| && b[k] == 0 && b[k + 1] == 0 && b[k + 2] == hTime && b[k + 3] == willingness
      && LinksAt(b, k + 4, links)
    case Tc(ansn, neighbors) =>
      k + 4 <= |b| && TwoAt(b, k) == ansn && b[k + 2] == 0 && b[k + 3] == 0 && AddressesAt(b, k + 4, neighbors)
    case Mid(interfaces) => AddressesAt(b, k, interfaces)
    case Hna(associations) => PairsAt(b, k, associations)
  }

  lemma AddressesArePlaced(b: seq<byte>, k: nat, xs: seq<Address>)
    requires k + 4 * |xs| <= |b| && b[k..k + 4 * |xs|] == Addresses(xs)
    ensures AddressesAt(b, k, xs)
  {
    hide Addresses, FourAt;
    forall i | 0 <= i < |xs| ensures FourAt(b, k + 4 * i) == xs[i] {
      AddressesLayout(xs, i);
      FourAtPart(b, k, Addresses(xs), 4 * i);
    }
  }

  lemma PairsArePlaced(b: seq<byte>, k: nat, ps: seq<(Address, Address)>)
    requires k + 8 * |ps| <= |b| && b[k..k + 8 * |ps|] == Pairs(ps)
    ensures PairsAt(b, k, ps)
  {
    hide Pairs, FourAt;
    forall i | 0 <= i < |ps| ensures FourAt(b, k + 8 * i) == ps[i].0 && FourAt(b, k + 8 * i + 4) == ps[i].1 {
      PairsLayout(ps, i);
      FourAtPart(b, k, Pairs(ps), 8 * i);
      FourAtPart(b, k, Pairs(ps), 8 * i + 4);
    }
  }

  lemma LinksArePlaced(b: seq<byte>, k: nat, links: seq<Link>)
    requires LinksSize(links) < 0x1_0000
    requires k + LinksSize(links) <= |b| && b[k..k + LinksSize(links)] == EncodeLinks(links)
    ensures LinksAt(b, k, links)
  {
    hide EncodeLinks, LinkAt, LinksSize;
    forall i | 0 <= i < |links| ensures LinkAt(b, k + LinksSize(links[..i]), links[i]) {
      LinksLayout(links, i);
      LinkAtPart(b, k, EncodeLinks(links), LinksSize(links[..i]), links[i]);
    }
  }

  lemma PartOfPart(b: seq<byte>, k: nat, x: seq<byte>, y: seq<byte>)
    requires k + |x| + |y| <= |b| && b[k..k + |x| + |y|] == x + y
    ensures b[k..k + |x|] == x && b[k + |x|..k + |x| + |y|] == y
  {
    assert b[k..k + |x|] == b[k..k + |x| + |y|][..|x|];
    assert b[k + |x|..k + |x| + |y|] == b[k..k + |x| + |y|][|x|..];
  }

  /** Every body is on the wire as the standard has it, behind the header. */
  lemma BodyLayout(b: seq<byte>, k: nat, body: Body)
    requires HEADER_SIZE + BodySize(body) < 0x1_0000
    requires k + BodySize(body) <= |b| && b[k..k + BodySize(body)] == EncodeBody(body)
    ensures BodyAt(b, k, body)
  {
    hide Addresses, Pairs, EncodeLinks, AddressesAt, PairsAt, LinksAt, LinksSize;
    match body
    case Hello(hTime, willingness, links) =>
      var front := [0, 0, hTime, willingness];
      PartOfPart(b, k, front, EncodeLinks(links));
      ByteAtPart(b, k, front, 0);
      ByteAtPart(b, k, front, 1);
      ByteAtPart(b, k, front, 2);
      ByteAtPart(b, k, front, 3);
      LinksArePlaced(b, k + 4, links);
    case Tc(ansn, neighbors) =>
      var front := U16(ansn) + [0, 0];
      PartOfPart(b, k, front, Addresses(neighbors));
      ByteAtPart(b, k, front, 0);
      ByteAtPart(b, k, front, 1);
      ByteAtPart(b, k, front, 2);
      ByteAtPart(b, k, front, 3);
      AddressesArePlaced(b, k + 4, neighbors);
    case Mid(interfaces) => AddressesArePlaced(b, k, interfaces);
    case Hna(associations) => PairsArePlaced(b, k, associations);
  }

  /** Every message is on the wire as the standard has it: its header, then its body. */
  lemma MessageLayout(m: Message)
    requires Sendable(m)
    ensures |Encode(m)| >= 12 && HeaderAt(Encode(m), m) && BodyAt(Encode(m), 12, m.body)
  {
    hide EncodeHeader, EncodeBody, BodyAt, HeaderAt;
    HeaderLayout(m);
    var b, body := Encode(m), EncodeBody(m.body);
    assert b[12..12 + |body|] == body;
    BodyLayout(b, 12, m.body);
  }

  // ---------------------------------------------------------------------------
  // Deserialization; `None` is an assertion failure or a read past the end of the buffer, which abort
  // the program
  // ---------------------------------------------------------------------------

  function ReadAddresses(b: seq<byte>, n: nat): (r: seq<Address>)
    requires |b| >= 4 * n
    ensures |r| == n
  {
    if n == 0 then [] else [ReadU32(b)] + ReadAddresses(b[4..], n - 1)
  }

  function ReadPairs(b: seq<byte>, n: nat): (r: seq<(Address, Address)>)
    requires |b| >= 8 * n
    ensures |r| == n
  {
    if n == 0 then [] else [(ReadU32(b), ReadU32(b[4..]))] + ReadPairs(b[8..], n - 1)
  }

  /** Link blocks until `left` bytes are used up.  A block shorter than its own header, or longer than
      what is left, would make the program read on past the end of any packet. */
  function ReadLinks(b: seq<byte>, left: nat): (r: Option<seq<Link>>)
    decreases left
  {
    if left == 0 then Some([])
    else if left < 4 || |b| < 4 then None
    else
      var size := ReadU16(b[2..]);
      if size < 4 || (size - 4) % 4 != 0 || size > left || size > |b| then None else
        var link := Link(b[0], ReadAddresses(b[4..], (size - 4) / 4));
        match ReadLinks(b[size..], left - size)
        case None => None
        case Some(rest) => Some([link] + rest)
  }

  function ReadBody(code: byte, b: seq<byte>, size: nat): (r: Option<Body>) {
    if |b| < size then None
    else if code == 1 then
      if size < 4 then None else
        (match ReadLinks(b[4..], size - 4)
         case None => None
         case Some(links) => Some(Hello(b[2], b[3], links)))
    else if code == 2 then
      if size < 4 || (size - 4) % 4 != 0 then None
      else Some(Tc(ReadU16(b), ReadAddresses(b[4..], (size - 4) / 4)))
    else if code == 3 then
      if size % 4 != 0 then None else Some(Mid(ReadAddresses(b, size / 4)))
    else if code == 4 then
      if size % 8 != 0 then None else Some(Hna(ReadPairs(b, size / 8)))
    else None
  }

  /** Reads one message from the front of `b`, with the number of bytes it took. */
  function Decode(b: seq<byte>): (r: Option<(Message, nat)>)
    ensures r.Some? ==> HEADER_SIZE <= r.value.1 <= |b|
  {
    if |b| < HEADER_SIZE then None else
      var size := ReadU16(b[2..]);
      if size < HEADER_SIZE then None else
        match ReadBody(b[0], b[HEADER_SIZE..], size - HEADER_SIZE)
        case None => None
        case Some(body) =>
          Some((Message(b[1], ReadU32(b[4..]), b[8], b[9], ReadU16(b[10..]), body), size))
  }

  // ---------------------------------------------------------------------------
  // What the decoder accepts
  // ---------------------------------------------------------------------------

  lemma FourAtDrop(b: seq<byte>, d: nat, k: nat)
    requires d + k + 4 <= |b|
    ensures FourAt(b[d..], k) == FourAt(b, d + k)
  {
  }

  lemma ReadIsAt(b: seq<byte>)
    ensures |b| >= 2 ==> ReadU16(b) == TwoAt(b, 0)
    ensures |b| >= 4 ==> ReadU32(b) == FourAt(b, 0)
  {
  }

  lemma {:induction false} ReadAddressesAt(b: seq<byte>, n: nat, i: nat)
    requires |b| >= 4 * n && i < n
    ensures ReadAddresses(b, n)[i] == FourAt(b, 4 * i)
    decreases n
  {
    hide FourAt, ReadU32;
    if i == 0 {
      ReadIsAt(b);
    } else {
      ReadAddressesAt(b[4..], n - 1, i - 1);
      FourAtDrop(b, 4, 4 * (i - 1));
    }
  }

  lemma {:induction false} ReadPairsAt(b: seq<byte>, n: nat, i: nat)
    requires |b| >= 8 * n && i < n
    ensures ReadPairs(b, n)[i] == (FourAt(b, 8 * i), FourAt(b, 8 * i + 4))
    decreases n
  {
    hide FourAt, ReadU32;
    if i == 0 {
      ReadIsAt(b);
      ReadIsAt(b[4..]);
      FourAtDrop(b, 4, 0);
    } else {
      ReadPairsAt(b[8..], n - 1, i - 1);
      FourAtDrop(b, 8, 8 * (i - 1));
      FourAtDrop(b, 8, 8 * (i - 1) + 4);
    }
  }

  lemma ReadsAddresses(b: seq<byte>, d: nat, n: nat, xs: seq<Address>)
    requires |b| >= d + 4 * n
    ensures ReadAddresses(b[d..], n) == xs <==> |xs| == n && AddressesAt(b, d, xs)
  {
    hide FourAt, ReadAddresses;
    var r := ReadAddresses(b[d..], n);
    forall i | 0 <= i < n ensures r[i] == FourAt(b, d + 4 * i) {
      ReadAddressesAt(b[d..], n, i);
      FourAtDrop(b, d, 4 * i);
    }
    if |xs| == n && AddressesAt(b, d, xs) {
      assert forall i :: 0 <= i < n ==> r[i] == xs[i];
    }
  }

  lemma ReadsPairs(b: seq<byte>, n: nat, ps: seq<(Address, Address)>)
    requires |b| >= 8 * n
    ensures ReadPairs(b, n) == ps <==> |ps| == n && PairsAt(b, 0, ps)
  {
    hide FourAt, ReadPairs;
    var r := ReadPairs(b, n);
    forall i | 0 <= i < n ensures r[i] == (FourAt(b, 0 + 8 * i), FourAt(b, 0 + 8 * i + 4)) {
      ReadPairsAt(b, n, i);
    }
    if |ps| == n && PairsAt(b, 0, ps) {
      assert forall i :: 0 <= i < n ==> r[i] == ps[i];
    }
  }

  /** Link blocks as they are read, whatever their reserved bytes hold. */
  ghost predicate CarriesLinks(b: seq<byte>, links: seq<Link>)
    decreases |links|
  {
    links == [] ||
    var n := |links[0].neighbors|;
    && |b| >= 4 + 4 * n
    && b[0] == links[0].code && TwoAt(b, 2) == 4 + 4 * n && AddressesAt(b, 4, links[0].neighbors)
    && CarriesLinks(b[4 + 4 * n..], links[1..])
  }

  ghost predicate CarriesBody(b: seq<byte>, body: Body) {
    match body
    case Hello(hTime, willingness, links) =>
      |b| >= 4 && b[2] == hTime && b[3] == willingness && CarriesLinks(b[4..], links)
    case Tc(ansn, neighbors) => |b| >= 4 && TwoAt(b, 0) == ansn && AddressesAt(b, 4, neighbors)
    case Mid(interfaces) => AddressesAt(b, 0, interfaces)
    case Hna(associations) => PairsAt(b, 0, associations)
  }

  /** The bytes start with the fields of `m`, whatever reserved bytes hold. */
  ghost predicate Carries(b: seq<byte>, m: Message)
    requires |b| >= 12
  {
    && b[0] == (match m.body case Hello(_, _, _) => 1 case Tc(_, _) => 2 case Mid(_) => 3 case Hna(_) => 4)
    && b[1] == m.vTime && TwoAt(b, 2) == Size(m) && FourAt(b, 4) == m.originator
    && b[8] == m.timeToLive && b[9] == m.hopCount && TwoAt(b, 10) == m.sequence
    && CarriesBody(b[12..], m.body)
  }

  lemma FoursAndEights(n: nat, q: nat)
    ensures n == 4 * q <==> n % 4 == 0 && n / 4 == q
    ensures n == 8 * q <==> n % 8 == 0 && n / 8 == q
  {
  }

  lemma {:induction false} ReadLinksExactly(b: seq<byte>, left: nat, links: seq<Link>)
    ensures ReadLinks(b, left) == Some(links) <==> LinksSize(links) == left <= |b| && CarriesLinks(b, links)
    decreases left
  {
    hide ReadAddresses, AddressesAt, ReadU16, TwoAt;
    if left == 0 {
      if links != [] { assert LinksSize(links) > 0; }
    } else if left < 4 || |b| < 4 {
    } else {
      ReadIsAt(b[2..]);
      TwoAtDrop(b, 2);
      var size := ReadU16(b[2..]);
      if links == [] || size < 4 {
      } else {
        var n := |links[0].neighbors|;
        FoursAndEights(size - 4, n);
        if size <= left && size <= |b| {
          ReadLinksExactly(b[size..], left - size, links[1..]);
          if size == 4 + 4 * n { ReadsAddresses(b, 4, n, links[0].neighbors); }
          FirstLinkRead(b, left, links, size, n);
        }
      }
    }
  }

  lemma TwoAtDrop(b: seq<byte>, d: nat)
    requires d + 2 <= |b|
    ensures TwoAt(b[d..], 0) == TwoAt(b, d)
  {
  }

  lemma FirstLinkSize(b: seq<byte>, left: nat, links: seq<Link>, size: nat)
    requires 4 <= left && 4 <= |b| && size == ReadU16(b[2..]) && 4 <= size <= left && size <= |b| && links != []
    ensures ReadLinks(b, left) == Some(links) ==> (size - 4) % 4 == 0 && (size - 4) / 4 == |links[0].neighbors|
  {
    hide ReadAddresses, ReadU16;
  }

  /** Reading a first link block and the rest. */
  lemma FirstLinkRead(b: seq<byte>, left: nat, links: seq<Link>, size: nat, n: nat)
    requires 4 <= left && 4 <= |b| && size == ReadU16(b[2..]) && 4 <= size <= left && size <= |b|
    requires links != [] && n == |links[0].neighbors|
    requires size == 4 + 4 * n <==> (size - 4) % 4 == 0 && (size - 4) / 4 == n
    requires size == 4 + 4 * n ==> (ReadAddresses(b[4..], n) == links[0].neighbors <==> AddressesAt(b, 4, links[0].neighbors))
    requires ReadLinks(b[size..], left - size) == Some(links[1..])
             <==> LinksSize(links[1..]) == left - size <= |b[size..]| && CarriesLinks(b[size..], links[1..])
    requires TwoAt(b, 2) == size
    ensures ReadLinks(b, left) == Some(links) <==> LinksSize(links) == left <= |b| && CarriesLinks(b, links)
  {
    hide ReadAddresses, AddressesAt, ReadU16, TwoAt;
    var l := links[0];
    FirstLinkSize(b, left, links, size);
    assert links == [l] + links[1..];
    if size == 4 + 4 * n {
      var link := Link(b[0], ReadAddresses(b[4..], n));
      var rest := ReadLinks(b[size..], left - size);
      assert ReadLinks(b, left) == if rest.Some? then Some([link] + rest.value) else None;
      if rest.Some? {
        assert ([link] + rest.value)[1..] == rest.value;
        assert [link] + rest.value == links <==> link == l && rest.value == links[1..];
      }
    }
  }

  lemma ReadBodyExactly(code: byte, b: seq<byte>, size: nat, body: Body)
    ensures ReadBody(code, b, size) == Some(body)
            <==> && BodySize(body) == size <= |b| && CarriesBody(b, body)
                 && code == match body case Hello(_, _, _) => 1 case Tc(_, _) => 2 case Mid(_) => 3 case Hna(_) => 4
  {
    hide ReadAddresses, ReadPairs, ReadLinks, AddressesAt, PairsAt, CarriesLinks, LinksSize, ReadU16, TwoAt;
    if size <= |b| {
      ReadIsAt(b);
      match body
      case Hello(_, _, links) => if size >= 4 { ReadLinksExactly(b[4..], size - 4, links); }
      case Tc(_, neighbors) =>
        if size >= 4 {
          FoursAndEights(size - 4, |neighbors|);
          ReadsAddresses(b, 4, (size - 4) / 4, neighbors);
        }
      case Mid(interfaces) =>
        FoursAndEights(size, |interfaces|);
        ReadsAddresses(b, 0, size / 4, interfaces);
        assert b[0..] == b;
      case Hna(associations) =>
        FoursAndEights(size, |associations|);
        ReadsPairs(b, size / 8, associations);
    }
  }

  /** The decoder accepts exactly the byte strings that start with the fields of a message whose size is the
      one in its header, and it reads that message: every length that does not fit, and every other type
      code, is refused. */
  lemma DecodesExactly(b: seq<byte>, m: Message, n: nat)
    ensures Decode(b) == Some((m, n)) <==> 12 <= n == Size(m) <= |b| && Carries(b, m)
  {
    hide ReadBody, CarriesBody, BodySize, ReadU16, ReadU32, TwoAt, FourAt;
    if |b| >= 12 {
      ReadIsAt(b[2..]);
      ReadIsAt(b[4..]);
      ReadIsAt(b[10..]);
      TwoAtDrop(b, 2);
      FourAtDrop(b, 4, 0);
      TwoAtDrop(b, 10);
      var size := ReadU16(b[2..]);
      if size >= 12 {
        ReadBodyExactly(b[0], b[12..], size - 12, m.body);
      }
    }
  }

  // ---------------------------------------------------------------------------
  // Round trips
  // ---------------------------------------------------------------------------

  lemma {:induction false} AddressesRoundTrip(xs: seq<Address>, rest: seq<byte>)
    ensures ReadAddresses(Addresses(xs) + rest, |xs|) == xs
    decreases |xs|
  {
    hide U32, ReadU32;
    if xs != [] {
      var b := Addresses(xs) + rest;
      assert b == U32(xs[0]) + (Addresses(xs[1..]) + rest);
      U32RoundTrip(xs[0], Addresses(xs[1..]) + rest);
      assert b[4..] == Addresses(xs[1..]) + rest;
      AddressesRoundTrip(xs[1..], rest);
    }
  }

  lemma {:induction false} PairsRoundTrip(ps: seq<(Address, Address)>, rest: seq<byte>)
    ensures ReadPairs(Pairs(ps) + rest, |ps|) == ps
    decreases |ps|
  {
    hide U32, ReadU32;
    if ps != [] {
      var b, tail := Pairs(ps) + rest, Pairs(ps[1..]) + rest;
      assert b == U32(ps[0].0) + (U32(ps[0].1) + tail);
      U32RoundTrip(ps[0].0, U32(ps[0].1) + tail);
      assert b[4..] == U32(ps[0].1) + tail;
      U32RoundTrip(ps[0].1, tail);
      assert b[8..] == tail;
      PairsRoundTrip(ps[1..], rest);
    }
  }

  lemma LinkHeader(l: Link, tail: seq<byte>)
    requires 4 + 4 * |l.neighbors| < 0x1_0000
    ensures var b := [l.code, 0] + U16(4 + 4 * |l.neighbors|) + Addresses(l.neighbors) + tail;
            && b[0] == l.code
            && ReadU16(b[2..]) == 4 + 4 * |l.neighbors|
            && ReadAddresses(b[4..], |l.neighbors|) == l.neighbors
            && b[4 + 4 * |l.neighbors|..] == tail
  {
    hide U16, ReadU16, Addresses, ReadAddresses;
    var n := 4 + 4 * |l.neighbors|;
    var b := [l.code, 0] + U16(n) + Addresses(l.neighbors) + tail;
    assert b[2..] == U16(n) + (Addresses(l.neighbors) + tail);
    U16RoundTrip(n, Addresses(l.neighbors) + tail);
    assert b[4..] == Addresses(l.neighbors) + tail;
    AddressesRoundTrip(l.neighbors, tail);
  }

  lemma ReadLinksStep(b: seq<byte>, left: nat, l: Link, rest: seq<Link>)
    requires var n := 4 + 4 * |l.neighbors|;
             && n <= left && n <= |b|
             && b[0] == l.code && ReadU16(b[2..]) == n
             && ReadAddresses(b[4..], |l.neighbors|) == l.neighbors
             && ReadLinks(b[n..], left - n) == Some(rest)
    ensures ReadLinks(b, left) == Some([l] + rest)
  {
    hide ReadU16, ReadAddresses;
    var n := 4 + 4 * |l.neighbors|;
    assert (n - 4) / 4 == |l.neighbors| && (n - 4) % 4 == 0;
  }

  lemma EncodeLinksUnfold(links: seq<Link>, rest: seq<byte>)
    requires links != [] && LinksSize(links) < 0x1_0000
    ensures var l, n := links[0], 4 + 4 * |links[0].neighbors|;
            && LinksSize(links) == n + LinksSize(links[1..]) && n < 0x1_0000
            && EncodeLinks(links) + rest ==
               [l.code, 0] + U16(n) + Addresses(l.neighbors) + (EncodeLinks(links[1..]) + rest)
  {
    hide U16, Addresses;
  }

  lemma {:induction false} LinksRoundTrip(links: seq<Link>, rest: seq<byte>)
    requires LinksSize(links) < 0x1_0000
    ensures ReadLinks(EncodeLinks(links) + rest, LinksSize(links)) == Some(links)
    decreases |links|
  {
    hide *;
    if links == [] {
      NoLinks(rest);
    } else {
      EncodeLinksUnfold(links, rest);
      LinkHeader(links[0], EncodeLinks(links[1..]) + rest);
      LinksRoundTrip(links[1..], rest);
      ReadLinksStep(EncodeLinks(links) + rest, LinksSize(links), links[0], links[1..]);
      assert [links[0]] + links[1..] == links;
    }
  }

  lemma NoLinks(rest: seq<byte>)
    ensures LinksSize([]) == 0 && ReadLinks(EncodeLinks([]) + rest, 0) == Some([])
  {
  }

  lemma HelloRoundTrip(b: Body, rest: seq<byte>)
    requires b.Hello? && HEADER_SIZE + BodySize(b) < 0x1_0000
    ensures ReadBody(1, EncodeBody(b) + rest, BodySize(b)) == Some(b)
  {
    hide U16, ReadU16, Addresses, ReadAddresses, Pairs, ReadPairs, ReadLinks, EncodeLinks, LinksSize;
    var e := EncodeBody(b) + rest;
    assert e[4..] == EncodeLinks(b.links) + rest;
    LinksRoundTrip(b.links, rest);
  }

  lemma TcRead(e: seq<byte>, ansn: u16, neighbors: seq<Address>)
    requires |e| >= 4 + 4 * |neighbors| && ReadU16(e) == ansn && ReadAddresses(e[4..], |neighbors|) == neighbors
    ensures ReadBody(2, e, 4 + 4 * |neighbors|) == Some(Tc(ansn, neighbors))
  {
    hide ReadU16, ReadAddresses, ReadPairs, ReadLinks;
    assert (4 + 4 * |neighbors| - 4) / 4 == |neighbors| && (4 + 4 * |neighbors| - 4) % 4 == 0;
  }

  lemma TcBytes(b: Body, rest: seq<byte>)
    requires b.Tc? && HEADER_SIZE + BodySize(b) < 0x1_0000
    ensures BodySize(b) == 4 + 4 * |b.neighbors|
    ensures EncodeBody(b) + rest == U16(b.ansn) + ([0, 0] + Addresses(b.neighbors) + rest)
  {
    hide U16, Addresses, Pairs, EncodeLinks, LinksSize;
  }

  lemma TcRoundTrip(b: Body, rest: seq<byte>)
    requires b.Tc? && HEADER_SIZE + BodySize(b) < 0x1_0000
    ensures ReadBody(2, EncodeBody(b) + rest, BodySize(b)) == Some(b)
  {
    hide *;
    var tail := [0, 0] + Addresses(b.neighbors) + rest;
    TcBytes(b, rest);
    var e := U16(b.ansn) + tail;
    U16RoundTrip(b.ansn, tail);
    assert e[4..] == Addresses(b.neighbors) + rest;
    AddressesRoundTrip(b.neighbors, rest);
    TcRead(e, b.ansn, b.neighbors);
  }

  lemma MidRoundTrip(b: Body, rest: seq<byte>)
    requires b.Mid? && HEADER_SIZE + BodySize(b) < 0x1_0000
    ensures ReadBody(3, EncodeBody(b) + rest, BodySize(b)) == Some(b)
  {
    hide ReadU16, Addresses, ReadAddresses, ReadPairs, ReadLinks, Pairs, EncodeLinks, LinksSize;
    AddressesRoundTrip(b.interfaces, rest);
  }

  lemma HnaRoundTrip(b: Body, rest: seq<byte>)
    requires b.Hna? && HEADER_SIZE + BodySize(b) < 0x1_0000
    ensures ReadBody(4, EncodeBody(b) + rest, BodySize(b)) == Some(b)
  {
    hide ReadU16, Addresses, ReadAddresses, ReadPairs, ReadLinks, Pairs, EncodeLinks, LinksSize;
    PairsRoundTrip(b.associations, rest);
  }

  lemma BodyRoundTrip(b: Body, rest: seq<byte>)
    requires HEADER_SIZE + BodySize(b) < 0x1_0000
    ensures ReadBody(TypeCode(b), EncodeBody(b) + rest, BodySize(b)) == Some(b)
  {
    hide EncodeBody, ReadBody, BodySize;
    match b {
      case Hello(_, _, _) => HelloRoundTrip(b, rest);
      case Tc(_, _) => TcRoundTrip(b, rest);
      case Mid(_) => MidRoundTrip(b, rest);
      case Hna(_) => HnaRoundTrip(b, rest);
    }
  }

  /** A message read back, whatever follows it, is the message written. */
  lemma RoundTrip(m: Message, rest: seq<byte>)
    requires Sendable(m)
    ensures Decode(Encode(m) + rest) == Some((m, Size(m)))
  {
    hide U16, U32, ReadU16, ReadU32, EncodeBody, ReadBody, BodySize;
    var body := EncodeBody(m.body);
    var b := Encode(m) + rest;
    assert b[2..] == U16(Size(m)) + (U32(m.originator) + [m.timeToLive, m.hopCount] + U16(m.sequence) + body + rest);
    U16RoundTrip(Size(m), U32(m.originator) + [m.timeToLive, m.hopCount] + U16(m.sequence) + body + rest);
    assert b[4..] == U32(m.originator) + ([m.timeToLive, m.hopCount] + U16(m.sequence) + body + rest);
    U32RoundTrip(m.originator, [m.timeToLive, m.hopCount] + U16(m.sequence) + body + rest);
    assert b[10..] == U16(m.sequence) + (body + rest);
    U16RoundTrip(m.sequence, body + rest);
    assert b[HEADER_SIZE..] == body + rest;
    BodyRoundTrip(m.body, rest);
  }

  // ---------------------------------------------------------------------------
  // The message loops
  // ---------------------------------------------------------------------------

  /** The messages of the next `remaining` bytes of `b`, by a loop that goes on while at least `least`
      bytes remain: it stops at an unknown type byte and at a message that does not fit, and aborts
      (`None`) when reading a message does. */
  ghost function Parse(b: seq<byte>, remaining: nat, least: nat): Option<seq<Message>>
    requires least > 0
    decreases remaining
  {
    if remaining < least || b == [] || !(1 <= b[0] <= 4) then Some([]) else
      match Decode(b)
      case None => None
      case Some((m, consumed)) =>
        if consumed > remaining then Some([]) else
          match Parse(b[consumed..], remaining - consumed, least)
          case None => None
          case Some(rest) => Some([m] + rest)
  }

  function EncodeAll(ms: seq<Message>): (b: seq<byte>)
    requires forall i :: 0 <= i < |ms| ==> Sendable(ms[i])
  {
    if ms == [] then [] else Encode(ms[0]) + EncodeAll(ms[1..])
  }

  lemma ParseFirst(m: Message, tail: seq<byte>, remaining: nat, least: nat, rest: seq<Message>)
    requires Sendable(m) && 0 < least <= HEADER_SIZE && Size(m) <= remaining
    requires Parse(tail, remaining - Size(m), least) == Some(rest)
    ensures Parse(Encode(m) + tail, remaining, least) == Some([m] + rest)
  {
    hide U16, U32, EncodeBody, Decode;
    RoundTrip(m, tail);
    var b := Encode(m) + tail;
    assert b[0] == TypeCode(m.body);
    assert b[Size(m)..] == tail;
  }

  lemma EncodeAllUnfold(ms: seq<Message>)
    requires ms != [] && forall i :: 0 <= i < |ms| ==> Sendable(ms[i])
    ensures forall i :: 0 <= i < |ms[1..]| ==> Sendable(ms[1..][i])
    ensures EncodeAll(ms) == Encode(ms[0]) + EncodeAll(ms[1..])
  {
    hide Encode, Sendable;
    forall i | 0 <= i < |ms[1..]| ensures Sendable(ms[1..][i]) { assert ms[1..][i] == ms[i + 1]; }
  }

  lemma NothingEncoded(padding: seq<byte>, least: nat)
    requires least > 0
    ensures EncodeAll([]) == [] && Parse(EncodeAll([]) + padding, 0, least) == Some([])
  {
  }

  /** A packet written from a list of messages is read as exactly that list, whatever padding follows,
      by either loop: one runs while any byte remains, the other while a header fits. */
  lemma {:induction false} ParsesExactly(ms: seq<Message>, padding: seq<byte>, least: nat)
    requires forall i :: 0 <= i < |ms| ==> Sendable(ms[i])
    requires 0 < least <= HEADER_SIZE
    ensures Parse(EncodeAll(ms) + padding, |EncodeAll(ms)|, least) == Some(ms)
    decreases |ms|
  {
    hide *;
    if ms == [] {
      NothingEncoded(padding, least);
    } else {
      EncodeAllUnfold(ms);
      var m, rest := ms[0], EncodeAll(ms[1..]);
      ParsesExactly(ms[1..], padding, least);
      assert EncodeAll(ms) + padding == Encode(m) + (rest + padding);
      assert |EncodeAll(ms)| == Size(m) + |rest|;
      ParseFirst(m, rest + padding, |EncodeAll(ms)|, least, ms[1..]);
      assert [m] + ms[1..] == ms;
    }
  }

  /** The walk through the messages ends with 1 to 11 bytes left that start with a known type byte but
      cannot be read: there the first loop aborts and the second one stops. */
  ghost predicate BadTail(b: seq<byte>, remaining: nat)
    decreases remaining
  {
    && remaining > 0 && b != [] && 1 <= b[0] <= 4
    && match Decode(b)
       case None => remaining < HEADER_SIZE
       case Some((_, consumed)) => consumed <= remaining && BadTail(b[consumed..], remaining - consumed)
  }

  /** The two loops read the same messages out of any bytes at all, except when the first one aborts
      on a bad tail. */
  lemma {:induction false} LoopsAgree(b: seq<byte>, remaining: nat)
    ensures Parse(b, remaining, 1) == Parse(b, remaining, HEADER_SIZE) <==> !BadTail(b, remaining)
    ensures BadTail(b, remaining) ==> Parse(b, remaining, 1).None? && Parse(b, remaining, HEADER_SIZE).Some?
    decreases remaining
  {
    if remaining > 0 && b != [] && 1 <= b[0] <= 4 {
      hide Decode;
      match Decode(b)
      case None =>
      case Some((m, consumed)) =>
        DecodeConsumes(b);
        if consumed <= remaining {
          LoopsAgree(b[consumed..], remaining - consumed);
          PrependInjective(m, b[consumed..], remaining - consumed);
        }
    }
  }

  lemma DecodeConsumes(b: seq<byte>)
    ensures Decode(b).Some? ==> HEADER_SIZE <= Decode(b).value.1 <= |b|
  {
  }

  lemma PrependInjective(m: Message, b: seq<byte>, remaining: nat)
    ensures var x, y := Parse(b, remaining, 1), Parse(b, remaining, HEADER_SIZE);
            x.Some? && y.Some? && [m] + x.value == [m] + y.value ==> x.value == y.value
  {
    var x, y := Parse(b, remaining, 1), Parse(b, remaining, HEADER_SIZE);
    if x.Some? && y.Some? && [m] + x.value == [m] + y.value {
      assert x.value == ([m] + x.value)[1..] && y.value == ([m] + y.value)[1..];
    }
  }
}
