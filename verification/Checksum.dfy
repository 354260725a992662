/** The Internet checksums of dpdk-16.07/app/test-pmd: ip_sum of flowgen.c, the two sums over a
    fixed IPv4 header in txonly.c and icmpecho.c, and the patched checksum of an echo reply.  A
    message is the sequence of its 16-bit words as a little-endian machine reads them. */
module Checksum {
  import opened CTypes

  // ----- Sections 1 and 2 of RFC 1071 -----

  /** One's complement addition: the carry is added back at the other end. */
  function Plus(x: uint16, y: uint16): uint16 {
    if x + y > 0xFFFF then x + y - 0xFFFF else x + y
  }

  function OnesSum(words: seq<uint16>): uint16 {
    if words == [] then 0 else Plus(OnesSum(words[..|words| - 1]), words[|words| - 1])
  }

  /** The checksum of words among which the checksum itself counts as zero. */
  function Check(words: seq<uint16>): uint16 {
    0xFFFF - OnesSum(words)
  }

  /** What a receiver tests: the sum over everything, the checksum included, is all ones. */
  predicate Valid(words: seq<uint16>) {
    OnesSum(words) == 0xFFFF
  }

  /** The numerical example of section 3 of RFC 1071. */
  lemma PublishedSum()
    ensures OnesSum([0x0001, 0xf203, 0xf4f5, 0xf6f7]) == 0xddf2 && Check([0x0001, 0xf203, 0xf4f5, 0xf6f7]) == 0x220d
  {
    var w1: seq<uint16>, w2: seq<uint16>, w3: seq<uint16> := [0x0001], [0x0001, 0xf203], [0x0001, 0xf203, 0xf4f5];
    var w4: seq<uint16> := [0x0001, 0xf203, 0xf4f5, 0xf6f7];
    assert w4[..3] == w3 && w3[..2] == w2 && w2[..1] == w1 && w1[..0] == [];
    assert OnesSum(w1) == Plus(OnesSum([]), 0x0001) == 0x0001;
    assert OnesSum(w2) == Plus(0x0001, 0xf203) == 0xf204;
    assert OnesSum(w3) == Plus(0xf204, 0xf4f5) == 0xe6fa;
  }

  // ----- Sums with the carries deferred -----

  function Total(words: seq<uint16>): nat {
    if words == [] then 0 else Total(words[..|words| - 1]) + words[|words| - 1]
  }

  /** The one 16-bit number that is congruent modulo 65535 and zero only for zero. */
  function Canon(v: nat): uint16 {
    if v == 0 then 0 else (v - 1) % 0xFFFF + 1
  }

  /** Adding all carries at the end is adding each when it arises. */
  lemma {:induction false} OnesSumIsCanon(words: seq<uint16>)
    ensures OnesSum(words) == Canon(Total(words))
  {
    if words != [] {
      OnesSumIsCanon(words[..|words| - 1]);
      CanonPlus(Total(words[..|words| - 1]), words[|words| - 1]);
    }
  }

  lemma CanonPlus(v: nat, x: uint16)
    ensures Canon(v + x) == Plus(Canon(v), x)
  {
  }

  /** (v & 0xFFFF) + (v >> 16) */
  function Fold(v: nat): nat {
    v % 0x1_0000 + v / 0x1_0000
  }

  lemma FoldKeeps(v: nat)
    ensures Canon(Fold(v)) == Canon(v)
    ensures v > 0xFFFF ==> Fold(v) < v
    ensures v <= 0xFFFF ==> Fold(v) == v == Canon(v)
    ensures v < 0x1_0000_0000 ==> Fold(v) <= 0x1_FFFE
  {
    var k := v / 0x1_0000;
    assert v == Fold(v) + 0xFFFF * k;
    if v > 0xFFFF {
      SameRemainder(Fold(v) - 1, k);
    }
  }

  lemma SameRemainder(x: nat, k: nat)
    ensures (x + 0xFFFF * k) % 0xFFFF == x % 0xFFFF
  {
  }

  /** ip_sum of flowgen.c; the last byte of an odd length is left out, as it is there. */
  method IpSum(hdr: seq<uint16>, hdrLen: nat) returns (r: uint16)
    requires hdrLen / 2 <= |hdr|
    ensures r == Check(hdr[..hdrLen / 2])
  {
    hide Fold, Canon, OnesSum;
    var sum: uint32, left, i := 0, hdrLen, 0;
    while left > 1
      invariant left >= 0 && hdrLen == left + 2 * i
      invariant sum < 0x8000_0000 && Canon(sum) == Canon(Total(hdr[..i]))
      decreases left
    {
      assert hdr[..i + 1][..i] == hdr[..i];
      CanonAdd(sum, Total(hdr[..i]), hdr[i]);
      sum := sum + hdr[i];
      i := i + 1;
      if sum >= 0x8000_0000 {
        FoldKeeps(sum);
        sum := Fold(sum);
      }
      left := left - 2;
    }
    while sum / 0x1_0000 != 0
      invariant Canon(sum) == Canon(Total(hdr[..i]))
      decreases sum
    {
      FoldKeeps(sum);
      sum := Fold(sum);
    }
    FoldKeeps(sum);
    OnesSumIsCanon(hdr[..i]);
    r := 0xFFFF - sum;
  }

  lemma CanonAdd(v: nat, w: nat, x: uint16)
    requires Canon(v) == Canon(w)
    ensures Canon(v + x) == Canon(w + x)
  {
    hide Canon;
    CanonPlus(v, x);
    CanonPlus(w, x);
  }

  // ----- The sums over a fixed header of ten words, without its checksum -----

  /** A header with another checksum. */
  function WithCheck(h: seq<uint16>, c: uint16): seq<uint16>
    requires |h| == 10
  {
    h[5 := c]
  }

  function HeaderTotal(h: seq<uint16>): nat
    requires |h| == 10
  {
    h[0] as nat + h[1] + h[2] + h[3] + h[4] + h[6] + h[7] + h[8] + h[9]
  }

  lemma TotalOfTen(h: seq<uint16>)
    requires |h| == 10
    ensures Total(h) == HeaderTotal(h) + h[5]
  {
    hide Total;
    TotalFrom(h, 10); TotalFrom(h, 9); TotalFrom(h, 8); TotalFrom(h, 7); TotalFrom(h, 6);
    TotalFrom(h, 5); TotalFrom(h, 4); TotalFrom(h, 3); TotalFrom(h, 2); TotalFrom(h, 1);
    assert h[..10] == h;
  }

  lemma TotalFrom(h: seq<uint16>, i: nat)
    requires 0 < i <= |h|
    ensures Total(h[..i]) == Total(h[..i - 1]) + h[i - 1] && Total(h[..0]) == 0
  {
    assert h[..i][..i - 1] == h[..i - 1];
  }

  /** ipv4_hdr_cksum of icmpecho.c */
  method Ipv4HdrCksum(h: seq<uint16>) returns (c: uint16)
    requires |h| == 10
    ensures var sum := Check(WithCheck(h, 0)); c == if sum == 0 then 0xFFFF else sum
  {
    hide Canon, Fold, Total, OnesSum;
    var ipCksum: uint32 := h[0] as nat + h[1] + h[2] + h[3] + h[4] + h[6] + h[7] + h[8] + h[9];
    TotalOfTen(WithCheck(h, 0));
    OnesSumIsCanon(WithCheck(h, 0));
    FoldKeeps(ipCksum);
    FoldKeeps(Fold(ipCksum));
    FoldTwice(ipCksum);
    ipCksum := Fold(ipCksum);
    ipCksum := Fold(ipCksum);
    FoldKeeps(ipCksum);
    ipCksum := 0xFFFF - ipCksum;
    c := if ipCksum == 0 then 0xFFFF else ipCksum;
  }

  lemma FoldTwice(v: uint32)
    ensures Fold(Fold(v)) <= 0xFFFF
  {
  }

  /** The checksum part of setup_pkt_udp_ip_headers of txonly.c, which subtracts instead of folding twice. */
  method UdpIpCksum(h: seq<uint16>) returns (c: uint16)
    requires |h| == 10
    ensures var sum := Check(WithCheck(h, 0)); c == if sum == 0 then 0xFFFF else sum
  {
    hide Canon, Fold, Total, OnesSum;
    var ipCksum: uint32 := 0;
    ipCksum := ipCksum + h[0]; ipCksum := ipCksum + h[1];
    ipCksum := ipCksum + h[2]; ipCksum := ipCksum + h[3];
    ipCksum := ipCksum + h[4];
    ipCksum := ipCksum + h[6]; ipCksum := ipCksum + h[7];
    ipCksum := ipCksum + h[8]; ipCksum := ipCksum + h[9];
    TotalOfTen(WithCheck(h, 0));
    OnesSumIsCanon(WithCheck(h, 0));
    FoldKeeps(ipCksum);
    ipCksum := Fold(ipCksum);
    CanonUpTo(ipCksum);
    if ipCksum > 65535 {
      ipCksum := ipCksum - 65535;
    }
    ipCksum := 0xFFFF - ipCksum;
    if ipCksum == 0 {
      ipCksum := 0xFFFF;
    }
    c := ipCksum;
  }

  lemma CanonUpTo(v: nat)
    requires v <= 0x1_FFFE
    ensures Canon(v) == if v > 0xFFFF then v - 0xFFFF else v
  {
  }

  /** A header is valid with exactly its checksum, or the other form of zero when that is zero: the
      three ways of computing it are interchangeable. */
  lemma ValidHeaders(h: seq<uint16>, c: uint16)
    requires |h| == 10
    ensures var sum := Check(WithCheck(h, 0)); Valid(WithCheck(h, c)) <==> c == sum || (sum == 0 && c == 0xFFFF)
  {
    hide Total, OnesSum;
    OnesSumIsCanon(WithCheck(h, 0));
    OnesSumIsCanon(WithCheck(h, c));
    TotalOfTen(WithCheck(h, 0));
    TotalOfTen(WithCheck(h, c));
    CanonPlus(HeaderTotal(h), c);
  }

  // ----- The echo reply, in place -----

  /** is_multicast_ipv4_addr, from the word with the first two bytes of the address: the macro looks
      for the first octet 224 alone. */
  predicate IsMulticast(firstWord: uint16) {
    firstWord % 0x100 == 0xE0
  }

  /** The multicast addresses, section 4 of RFC 1112, have the first octets 224 to 239. */
  predicate InClassD(firstWord: uint16) {
    0xE0 <= firstWord % 0x100 <= 0xEF
  }

  /** An address next to the one given: the last two bits, which lie in the last byte, become 2
      if they were 1 and 1 otherwise. */
  function Neighbour(lastWord: uint16): uint16 {
    var low, last := lastWord % 0x100, lastWord / 0x100;
    low + 0x100 * (last / 4 * 4 + if last % 4 == 1 then 2 else 1)
  }

  /** The header of the reply is valid whenever that of the request was, and always when its
      checksum is computed again.  The sender of the request is the destination; the source is a
      neighbour of it if the request went to an address the macro takes for multicast, and else
      the destination of the request, so that a reply to 225.0.0.0 to 239.255.255.255 leaves with
      a multicast source address. */
  method ReplyHeader(ip: array<uint16>)
    requires ip.Length == 10
    modifies ip
    ensures old(Valid(ip[..])) || old(ip[8]) % 0x100 == 0xE0 ==> Valid(ip[..])
    ensures ip[8] == old(ip[6]) && ip[9] == old(ip[7])
    ensures if old(ip[8]) % 0x100 == 0xE0 then
              var was, now := old(ip[7]) / 0x100, ip[7] / 0x100; // the last octet
              && ip[6] == old(ip[6]) && ip[7] % 0x100 == old(ip[7]) % 0x100
              && now / 4 == was / 4 && now % 4 == (if was % 4 == 1 then 2 else 1) && ip[7] != old(ip[7])
            else ip[6] == old(ip[8]) && ip[7] == old(ip[9]) && ip[5] == old(ip[5])
    ensures ip[..5] == old(ip[..5])
    ensures !InClassD(old(ip[6])) ==> (InClassD(ip[6]) <==> 0xE1 <= old(ip[8]) % 0x100 <= 0xEF)
  {
    ghost var was := ip[..];
    var first, last := ip[6], ip[7];
    if IsMulticast(ip[8]) {
      NeighbourIs(last);
      ip[6], ip[7] := first, Neighbour(last);
      ip[8], ip[9] := first, last;
      ghost var now := ip[..];
      var c := Ipv4HdrCksum(ip[..]);
      ip[5] := c;
      ValidHeaders(now, c);
      assert ip[..] == WithCheck(now, c);
    } else {
      ip[6], ip[7] := ip[8], ip[9];
      ip[8], ip[9] := first, last;
      SwapKeepsSum(was, ip[..]);
    }
  }

  lemma NeighbourIs(w: uint16)
    ensures Neighbour(w) != w && Neighbour(w) % 0x100 == w % 0x100
    ensures var was, now := w / 0x100, Neighbour(w) / 0x100; now / 4 == was / 4 && now % 4 == if was % 4 == 1 then 2 else 1
  {
  }

  lemma SwapKeepsSum(h: seq<uint16>, g: seq<uint16>)
    requires |h| == |g| == 10 && h[..6] == g[..6] && g[6..] == [h[8], h[9], h[6], h[7]]
    ensures OnesSum(g) == OnesSum(h)
  {
    hide OnesSum, Total, Canon;
    OnesSumIsCanon(h); OnesSumIsCanon(g);
    TotalOfTen(h); TotalOfTen(g);
    assert g[6] == h[8] && g[7] == h[9] && g[8] == h[6] && g[9] == h[7];
    assert h[..6][0] == g[0] && h[..6][1] == g[1] && h[..6][2] == g[2];
    assert h[..6][3] == g[3] && h[..6][4] == g[4] && h[..6][5] == g[5];
  }

  /** The first word of an echo request, type 8 and code 0, and of a reply, type 0 and code 0. */
  const REQUEST: uint16 := 8
  const REPLY: uint16 := 0

  function Complement(x: uint16): uint16 {
    0xFFFF - x
  }

  /** The checksum of the reply, by equation 3 of section 3 of RFC 1624. */
  function Patched(c: uint16): uint16 {
    Complement(Canon(Complement(c) + Complement(REQUEST) + REPLY))
  }

  /** Turning a request into a reply: its words are the type and code, the checksum, and the rest. */
  method PatchEcho(icmp: array<uint16>)
    requires icmp.Length >= 2 && icmp[0] == REQUEST
    modifies icmp
    ensures icmp[..] == [REPLY, Patched(old(icmp[1]))] + old(icmp[2..])
  {
    icmp[0] := icmp[0] / 0x100 * 0x100 + 0;
    var cksum: uint32 := Complement(icmp[1]);
    cksum := cksum + Complement(REQUEST);
    cksum := cksum + REPLY;
    FoldTwice(cksum);
    FoldKeeps(cksum);
    FoldKeeps(Fold(cksum));
    cksum := Fold(cksum);
    cksum := Fold(cksum);
    FoldKeeps(cksum);
    icmp[1] := Complement(cksum);
  }

  lemma {:induction false} TotalOfMessage(first: uint16, check: uint16, rest: seq<uint16>)
    ensures Total([first, check] + rest) == first + check + Total(rest)
  {
    if rest == [] {
      assert [first, check] + rest == [first, check];
      assert [first, check][..1] == [first] && [first][..0] == [];
    } else {
      var n := |rest| - 1;
      assert ([first, check] + rest)[..n + 2] == [first, check] + rest[..n];
      TotalOfMessage(first, check, rest[..n]);
    }
  }

  lemma {:induction false} TotalZero(words: seq<uint16>)
    ensures Total(words) == 0 <==> forall k :: 0 <= k < |words| ==> words[k] == 0
  {
    if words != [] {
      var init := words[..|words| - 1];
      TotalZero(init);
      if Total(words) == 0 {
        forall k | 0 <= k < |words| ensures words[k] == 0 {
          if k < |init| { assert init[k] == 0; }
        }
      }
    }
  }

  /** The reply to a valid request is valid exactly when identifier, sequence number and data are
      not all zero. */
  lemma PatchKeepsValid(c: uint16, rest: seq<uint16>)
    requires Valid([REQUEST, c] + rest)
    ensures Valid([REPLY, Patched(c)] + rest) <==> exists k :: 0 <= k < |rest| && rest[k] != 0
  {
    hide OnesSum, Total;
    OnesSumIsCanon([REQUEST, c] + rest);
    OnesSumIsCanon([REPLY, Patched(c)] + rest);
    TotalOfMessage(REQUEST, c, rest);
    TotalOfMessage(REPLY, Patched(c), rest);
    TotalZero(rest);
    PatchArithmetic(c, Total(rest));
  }

  /** A valid echo request of eight bytes, all zero but for type and checksum, gets a reply that is not. */
  lemma AllZeroRequest()
    ensures Valid([REQUEST, 0xFFF7] + [0, 0]) && !Valid([REPLY, Patched(0xFFF7)] + [0, 0])
  {
    hide OnesSum, Total;
    TotalOfMessage(REQUEST, 0xFFF7, [0, 0]);
    TotalZero([0, 0]);
    OnesSumIsCanon([REQUEST, 0xFFF7] + [0, 0]);
    PatchKeepsValid(0xFFF7, [0, 0]);
  }

  lemma PatchArithmetic(c: uint16, t: nat)
    requires Canon(REQUEST + c + t) == 0xFFFF
    ensures Canon(Patched(c) + t) == 0xFFFF <==> t != 0
  {
    CanonPlus(t, c);
    CanonPlus(t + c, REQUEST);
    CanonPlus(t, Patched(c));
  }
}
