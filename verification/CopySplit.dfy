/** Copying a packet into a chosen number of segments: mbuf_copy_split and pkt_copy_split of
    dpdk-16.07/app/test-pmd/csumonly.c. */
module CopySplit {
  import opened CTypes

  // ----- What a copy means, on values -----

  function Flatten(parts: seq<seq<uint8>>): seq<uint8> {
    if parts == [] then [] else parts[0] + Flatten(parts[1..])
  }

  function Total(lengths: seq<uint16>): nat {
    if lengths == [] then 0 else lengths[0] as nat + Total(lengths[1..])
  }

  lemma {:induction false} FlattenAppend(parts: seq<seq<uint8>>, last: seq<uint8>)
    ensures Flatten(parts + [last]) == Flatten(parts) + last
  {
    if parts == [] {
      assert [last][1..] == [];
    } else {
      assert (parts + [last])[1..] == parts[1..] + [last];
      FlattenAppend(parts[1..], last);
    }
  }

  lemma {:induction false} TotalAppend(lengths: seq<uint16>, last: uint16)
    ensures Total(lengths + [last]) == Total(lengths) + last as nat
  {
    if lengths == [] {
      assert [last][1..] == [];
    } else {
      assert (lengths + [last])[1..] == lengths[1..] + [last];
      TotalAppend(lengths[1..], last);
    }
  }

  /** The segments filled, and what is left of the source when they run out. */
  datatype Cut = Cut(pieces: seq<seq<uint8>>, left: seq<seq<uint8>>)

  /** The source after its first segment has filled one of the given length. */
  function After(source: seq<seq<uint8>>, length: uint16): seq<seq<uint8>>
    requires source != []
  {
    var taken := Min(length, |source[0]|);
    if taken == |source[0]| then source[1..] else [source[0][taken..]] + source[1..]
  }

  /** Fill each segment in turn from the head of the source.  A segment never spans two source
      segments, so it may end short. */
  function Split(source: seq<seq<uint8>>, lengths: seq<uint16>): (cut: Cut)
    ensures |cut.pieces| <= |lengths| && (cut.left != [] ==> |cut.pieces| == |lengths|)
    ensures forall k :: 0 <= k < |cut.pieces| ==> |cut.pieces[k]| <= lengths[k] as nat
    decreases |lengths|
  {
    if source == [] || lengths == [] then Cut([], source)
    else
      var cut := Split(After(source, lengths[0]), lengths[1..]);
      Cut([source[0][..Min(lengths[0], |source[0]|)]] + cut.pieces, cut.left)
  }

  lemma FlattenHead(parts: seq<seq<uint8>>)
    requires parts != []
    ensures Flatten(parts) == parts[0] + Flatten(parts[1..])
  {
  }

  lemma FlattenCons(head: seq<uint8>, rest: seq<seq<uint8>>)
    ensures Flatten([head] + rest) == head + Flatten(rest)
  {
    assert ([head] + rest)[1..] == rest;
  }

  lemma Associate(a: seq<uint8>, b: seq<uint8>, c: seq<uint8>)
    ensures (a + b) + c == a + (b + c)
  {
  }

  lemma AfterKeepsBytes(source: seq<seq<uint8>>, length: uint16)
    requires source != []
    ensures Flatten(source) == source[0][..Min(length, |source[0]|)] + Flatten(After(source, length))
  {
    hide Flatten, After;
    var taken := Min(length, |source[0]|);
    FlattenHead(source);
    if taken < |source[0]| {
      AfterPart(source, length);
      FlattenHead(After(source, length));
      Regroup(source[0], taken, Flatten(source[1..]));
    } else {
      AfterAll(source, length);
    }
  }

  lemma AfterPart(source: seq<seq<uint8>>, length: uint16)
    requires source != [] && length < |source[0]|
    ensures var rest := After(source, length);
            rest != [] && rest[0] == source[0][length..] && rest[1..] == source[1..]
  {
  }

  lemma AfterAll(source: seq<seq<uint8>>, length: uint16)
    requires source != [] && length >= |source[0]|
    ensures source[0][..Min(length, |source[0]|)] == source[0] && After(source, length) == source[1..]
  {
  }

  lemma Regroup(s: seq<uint8>, k: nat, more: seq<uint8>)
    requires k <= |s|
    ensures s + more == s[..k] + (s[k..] + more)
  {
  }

  lemma SplitHead(source: seq<seq<uint8>>, lengths: seq<uint16>, i: nat)
    requires source != [] && i < |lengths|
    ensures var cut, rest := Split(source, lengths[i..]), Split(After(source, lengths[i]), lengths[i + 1..]);
            && cut.pieces == [source[0][..Min(lengths[i], |source[0]|)]] + rest.pieces
            && cut.left == rest.left
  {
    hide After;
    assert lengths[i..][0] == lengths[i] && lengths[i..][1..] == lengths[i + 1..];
  }

  /** Splitting neither loses, repeats nor reorders bytes. */
  lemma {:induction false} SplitKeepsBytes(source: seq<seq<uint8>>, lengths: seq<uint16>)
    ensures var cut := Split(source, lengths); Flatten(cut.pieces) + Flatten(cut.left) == Flatten(source)
    decreases |lengths|
  {
    if source == [] || lengths == [] {
      assert Flatten([]) == [];
    } else {
      hide After, Flatten, Split;
      var piece := source[0][..Min(lengths[0], |source[0]|)];
      var cut, inner := Split(source, lengths), Split(After(source, lengths[0]), lengths[1..]);
      assert lengths[0..] == lengths;
      SplitHead(source, lengths, 0);
      AfterKeepsBytes(source, lengths[0]);
      SplitKeepsBytes(After(source, lengths[0]), lengths[1..]);
      FlattenCons(piece, inner.pieces);
      Associate(piece, Flatten(inner.pieces), Flatten(inner.left));
    }
  }

  /** Segments hold no more than their lengths add up to. */
  lemma {:induction false} PiecesFit(source: seq<seq<uint8>>, lengths: seq<uint16>)
    ensures var cut := Split(source, lengths);
            |Flatten(cut.pieces)| <= Total(lengths[..|cut.pieces|])
    decreases |lengths|
  {
    hide After;
    var cut := Split(source, lengths);
    if source != [] && lengths != [] {
      PiecesFit(After(source, lengths[0]), lengths[1..]);
      var inner := Split(After(source, lengths[0]), lengths[1..]);
      assert cut.pieces[1..] == inner.pieces;
      assert lengths[..|cut.pieces|][1..] == lengths[1..][..|inner.pieces|];
    }
  }

  /** One of the parts ends after n bytes. */
  ghost predicate EndsAt(parts: seq<seq<uint8>>, n: nat) {
    exists j :: 1 <= j <= |parts| && |Flatten(parts[..j])| == n
  }

  lemma PrefixBytes(parts: seq<seq<uint8>>, j: nat)
    requires 1 <= j <= |parts|
    ensures |Flatten(parts[..j])| == |parts[0]| + |Flatten(parts[1..][..j - 1])|
    ensures |Flatten(parts)| == |parts[0]| + |Flatten(parts[1..])|
  {
    assert parts[..j][1..] == parts[1..][..j - 1];
  }

  /** What ends after the first piece ends in what is left, and the other way round. */
  lemma EndsAfter(source: seq<seq<uint8>>, length: uint16, n: nat)
    requires source != []
    ensures var a := Min(length, |source[0]|);
            && (EndsAt(After(source, length), n) ==> EndsAt(source, n + a))
            && (EndsAt(source, n + a) ==> EndsAt(After(source, length), n) || (n == 0 && a == |source[0]|))
  {
    hide Flatten, After;
    var a, rest := Min(length, |source[0]|), After(source, length);
    if length < |source[0]| {
      AfterPart(source, length);
      if j :| 1 <= j <= |rest| && |Flatten(rest[..j])| == n { PrefixBytes(rest, j); PrefixBytes(source, j); }
      if j :| 1 <= j <= |source| && |Flatten(source[..j])| == n + a { PrefixBytes(rest, j); PrefixBytes(source, j); }
    } else {
      AfterAll(source, length);
      if j :| 1 <= j <= |rest| && |Flatten(rest[..j])| == n { PrefixBytes(source, j + 1); }
      if j :| 1 <= j <= |source| && |Flatten(source[..j])| == n + a {
        PrefixBytes(source, j);
        NothingFlat(rest);
        if j > 1 { assert 1 <= j - 1 <= |rest|; }
      }
    }
  }

  lemma NothingFlat(parts: seq<seq<uint8>>)
    ensures parts[..0] == [] && |Flatten(parts[..0])| == 0
  {
  }

  lemma SplitStep(source: seq<seq<uint8>>, lengths: seq<uint16>)
    requires source != [] && lengths != []
    ensures var pieces := Split(source, lengths).pieces;
            && pieces != [] && |pieces[0]| == Min(lengths[0], |source[0]|)
            && pieces[1..] == Split(After(source, lengths[0]), lengths[1..]).pieces
  {
    hide After, Split;
    assert lengths[0..] == lengths;
    SplitHead(source, lengths, 0);
  }

  /** Where the cuts are: a segment that is not filled ends where a source segment ends. */
  lemma {:induction false} ShortPieceEnds(source: seq<seq<uint8>>, lengths: seq<uint16>, k: nat)
    ensures var pieces := Split(source, lengths).pieces;
            k < |pieces| && |pieces[k]| < lengths[k] ==> EndsAt(source, |Flatten(pieces[..k + 1])|)
    decreases |lengths|
  {
    hide Flatten, After, EndsAt, Split;
    var pieces := Split(source, lengths).pieces;
    if source == [] || lengths == [] {
      NoPieces(source, lengths);
    } else if k < |pieces| && |pieces[k]| < lengths[k] {
      SplitStep(source, lengths);
      PrefixBytes(pieces, k + 1);
      if k == 0 {
        NothingFlat(pieces[1..]);
        FirstEnds(source);
      } else {
        ShortPieceEnds(After(source, lengths[0]), lengths[1..], k - 1);
        EndsAfter(source, lengths[0], |Flatten(pieces[1..][..k])|);
      }
    }
  }

  /** And wherever a source segment ends, within what is copied, a segment ends too. */
  lemma {:induction false} SourceEndsCut(source: seq<seq<uint8>>, lengths: seq<uint16>, n: nat)
    requires EndsAt(source, n) && 0 < n <= |Flatten(Split(source, lengths).pieces)|
    ensures EndsAt(Split(source, lengths).pieces, n)
    decreases |lengths|
  {
    hide Flatten, After, EndsAt, Split;
    var pieces := Split(source, lengths).pieces;
    if source == [] || lengths == [] {
      NoPieces(source, lengths);
    } else {
      var a := Min(lengths[0], |source[0]|);
      SplitStep(source, lengths);
      PrefixBytes(pieces, 1);
      EndsNotBefore(source, n);
      EndsAfter(source, lengths[0], n - a);
      if n > a { SourceEndsCut(After(source, lengths[0]), lengths[1..], n - a); }
      CutsShift(pieces, a, n);
    }
  }

  lemma NoPieces(source: seq<seq<uint8>>, lengths: seq<uint16>)
    requires source == [] || lengths == []
    ensures Split(source, lengths).pieces == [] && |Flatten([])| == 0
  {
  }

  lemma FirstEnds(source: seq<seq<uint8>>)
    requires source != []
    ensures EndsAt(source, |source[0]|)
  {
    hide Flatten;
    PrefixBytes(source, 1);
    NothingFlat(source[1..]);
  }

  lemma EndsNotBefore(source: seq<seq<uint8>>, n: nat)
    requires source != [] && EndsAt(source, n)
    ensures n >= |source[0]|
  {
    hide Flatten;
    var j :| 1 <= j <= |source| && |Flatten(source[..j])| == n;
    PrefixBytes(source, j);
  }

  lemma CutsShift(pieces: seq<seq<uint8>>, a: nat, n: nat)
    requires pieces != [] && |pieces[0]| == a && n >= a
    ensures EndsAt(pieces[1..], n - a) || n == a ==> EndsAt(pieces, n)
  {
    hide Flatten;
    if n == a {
      FirstEnds(pieces);
    } else if j :| 1 <= j <= |pieces[1..]| && |Flatten(pieces[1..][..j])| == n - a {
      PrefixBytes(pieces, j + 1);
    }
  }

  // ----- mbufs -----

  class Mbuf {
    var next: Mbuf?
    var buf: seq<uint8>
    var dataLen: nat
    const tailroom: nat // of a new mbuf, which holds no data
    var pktLen: nat
    var nbSegs: nat
    var vlanTci: nat
    var vlanTciOuter: nat
    var olFlags: nat
    var txOffload: nat

    constructor (tailroom: nat)
      ensures next == null && dataLen == 0 && buf == [] && this.tailroom == tailroom
    {
      this.tailroom := tailroom;
      next, buf, dataLen, pktLen, nbSegs := null, [], 0, 0, 1;
      vlanTci, vlanTciOuter, olFlags, txOffload := 0, 0, 0, 0;
    }
  }

  function Following(md: seq<Mbuf>, k: nat): Mbuf?
    requires k < |md|
  {
    if k + 1 == |md| then null else md[k + 1]
  }

  /** The mbufs of a packet are its first one and those that follow by next. */
  ghost predicate Chain(first: Mbuf?, chain: seq<Mbuf>)
    reads chain
  {
    && first == (if chain == [] then null else chain[0])
    && forall k :: 0 <= k < |chain| ==> chain[k].next == Following(chain, k)
  }

  /** The data of each mbuf. */
  ghost predicate Holds(chain: seq<Mbuf>, data: seq<seq<uint8>>)
    reads chain
  {
    |data| == |chain| && forall k :: 0 <= k < |chain| ==>
      chain[k].dataLen == |data[k]| <= |chain[k].buf| && chain[k].buf[..chain[k].dataLen] == data[k]
  }

  /** memcpy to an offset of a buffer; the bytes past what was written before are not kept track of. */
  function Write(buf: seq<uint8>, offset: nat, bytes: seq<uint8>): seq<uint8>
    requires offset <= |buf|
  {
    buf[..offset] + bytes + (if offset + |bytes| <= |buf| then buf[offset + |bytes|..] else [])
  }

  const ENOBUFS: int := 105
  const EINVAL: int := 22

  ghost predicate Distinct(md: seq<Mbuf>) {
    forall k, l :: 0 <= k < l < |md| ==> md[k] != md[l]
  }

  /** What is still to copy: the last slen bytes of source segment j, or all of it when slen is 0,
      and the segments after it. */
  function Pending(data: seq<seq<uint8>>, j: nat, slen: nat): seq<seq<uint8>>
    requires j <= |data| && (slen > 0 ==> j < |data| && slen <= |data[j]|)
  {
    if slen == 0 then data[j..] else [data[j][|data[j]| - slen..]] + data[j + 1..]
  }

  lemma PendingHead(data: seq<seq<uint8>>, j: nat, slen: nat)
    requires j < |data| && slen <= |data[j]|
    ensures var pending, now := Pending(data, j, slen), if slen == 0 then |data[j]| else slen;
            pending != [] && pending[0] == data[j][|data[j]| - now..] && pending[1..] == data[j + 1..]
  {
  }

  lemma PendingAfter(data: seq<seq<uint8>>, j: nat, slen: nat, length: uint16)
    requires j < |data| && slen <= |data[j]| && Pending(data, j, slen) != []
    ensures var now := if slen == 0 then |data[j]| else slen;
            var len := Min(length, now);
            After(Pending(data, j, slen), length) == Pending(data, if len == now then j + 1 else j, now - len)
  {
    hide Pending, After;
    var pending, now := Pending(data, j, slen), if slen == 0 then |data[j]| else slen;
    PendingHead(data, j, slen);
    if length < now {
      AfterPart(pending, length);
      PendingHead(data, j, now - length);
      var after := After(pending, length);
      var then' := Pending(data, j, now - length);
      assert after == [after[0]] + after[1..] && then' == [then'[0]] + then'[1..];
      assert data[j][|data[j]| - now..][length..] == data[j][|data[j]| - (now - length)..];
    } else {
      AfterAll(pending, length);
      PendingNext(data, j + 1);
    }
  }

  lemma PendingNext(data: seq<seq<uint8>>, j: nat)
    requires j <= |data|
    ensures Pending(data, j, 0) == data[j..]
  {
  }

  /** After filling segments with done and reaching byte slen from the end of source segment j,
      what Split still has to do is the rest. */
  ghost predicate Progress(data: seq<seq<uint8>>, seglen: seq<uint16>, done: seq<seq<uint8>>, j: nat, slen: nat)
    requires |done| <= |seglen| && j <= |data| && (slen > 0 ==> j < |data| && slen <= |data[j]|)
  {
    var cut, rest := Split(data, seglen), Split(Pending(data, j, slen), seglen[|done|..]);
    cut.pieces == done + rest.pieces && cut.left == rest.left
  }

  lemma Regrouped(done: seq<seq<uint8>>, piece: seq<uint8>, here: seq<seq<uint8>>, there: seq<seq<uint8>>)
    requires here == [piece] + there
    ensures done + here == (done + [piece]) + there
  {
  }

  /** One turn of the copying loop is one step of Split. */
  lemma ProgressStep(data: seq<seq<uint8>>, seglen: seq<uint16>, done: seq<seq<uint8>>, j: nat, slen: nat, src: nat, end: nat)
    requires |done| < |seglen| && j < |data| && slen <= |data[j]|
    requires src == (if slen == 0 then 0 else |data[j]| - slen) && end == src + Min(seglen[|done|], |data[j]| - src)
    requires Progress(data, seglen, done, j, slen)
    ensures var more := done + [data[j][src..end]];
            && Progress(data, seglen, more, if end == |data[j]| then j + 1 else j, |data[j]| - end)
            && |Flatten(more)| == |Flatten(done)| + (end - src)
  {
    hide Split, Pending, After, Flatten;
    var piece, i := data[j][src..end], |done|;
    FlattenAppend(done, piece);
    PendingHead(data, j, slen);
    SplitHead(Pending(data, j, slen), seglen, i);
    PendingAfter(data, j, slen, seglen[i]);
    assert data[j][src..][..end - src] == piece;
    Regrouped(done, piece, Split(Pending(data, j, slen), seglen[i..]).pieces,
              Split(After(Pending(data, j, slen), seglen[i]), seglen[i + 1..]).pieces);
  }

  lemma ProgressStart(data: seq<seq<uint8>>, seglen: seq<uint16>)
    ensures Progress(data, seglen, [], 0, 0) && Flatten([]) == []
  {
    assert data[0..] == data && seglen[0..] == seglen;
  }

  /** When the loop ends either everything has been copied or the segments have run out. */
  lemma ProgressEnd(data: seq<seq<uint8>>, seglen: seq<uint16>, done: seq<seq<uint8>>, j: nat, slen: nat)
    requires j <= |data| && (slen > 0 ==> j < |data| && slen <= |data[j]|) && |done| <= |seglen|
    requires j == |data| || |done| == |seglen|
    requires Progress(data, seglen, done, j, slen)
    ensures var cut := Split(data, seglen);
            && cut.pieces == done && (cut.left == [] <==> j == |data|)
            && (j == |data| ==> Flatten(done) == Flatten(data))
  {
    SplitKeepsBytes(data, seglen);
    assert Split(Pending(data, j, slen), seglen[|done|..]) == Cut([], Pending(data, j, slen));
    if j == |data| {
      assert Flatten([]) == [];
    }
  }

  lemma ChainAt(first: Mbuf, chain: seq<Mbuf>, data: seq<seq<uint8>>, j: nat)
    requires Chain(first, chain) && Holds(chain, data) && j < |chain|
    ensures |data| == |chain| && chain[j].dataLen == |data[j]| <= |chain[j].buf|
    ensures chain[j].next == if j + 1 < |chain| then chain[j + 1] else null
  {
  }

  lemma ChainSlice(chain: seq<Mbuf>, data: seq<seq<uint8>>, j: nat, src: nat, end: nat)
    requires Holds(chain, data) && j < |chain| && src <= end <= |data[j]|
    ensures end <= |chain[j].buf| && chain[j].buf[src..end] == data[j][src..end] && |data[j][src..end]| == end - src
  {
    assert chain[j].buf[..chain[j].dataLen][src..end] == chain[j].buf[src..end];
  }

  lemma FirstAt(first: Mbuf, chain: seq<Mbuf>, data: seq<seq<uint8>>)
    requires Chain(first, chain) && Holds(chain, data)
    ensures |data| == |chain| > 0 && first == chain[0]
  {
  }

  /** The mbufs to fill differ from each other and from those of the source. */
  ghost predicate Apart(md: seq<Mbuf>, chain: seq<Mbuf>) {
    Distinct(md) && forall k :: 0 <= k < |md| ==> md[k] !in chain
  }

  lemma NoneAlike(md: seq<Mbuf>, chain: seq<Mbuf>, i: nat)
    requires Apart(md, chain) && i < |md|
    ensures md[i] !in md[..i] && md[i] !in md[i + 1..] && md[i] !in chain
    ensures forall j :: 0 <= j < |chain| ==> chain[j] != md[i]
  {
  }

  /** The first mbufs hold the given pieces, each linked to the mbuf after it. */
  ghost predicate Filled(md: seq<Mbuf>, pieces: seq<seq<uint8>>)
    requires |pieces| <= |md|
    reads md[..|pieces|]`dataLen, md[..|pieces|]`buf, md[..|pieces|]`next
  {
    forall k :: 0 <= k < |pieces| ==>
      && md[k].dataLen == |pieces[k]| && md[k].buf == pieces[k]
      && md[k].next == Following(md, k)
  }

  /** The mbufs from the i-th on are as they were allocated. */
  ghost predicate Untouched(md: seq<Mbuf>, i: nat)
    requires i <= |md|
    reads md[i..]
  {
    forall k :: i <= k < |md| ==> md[k].buf == [] && md[k].dataLen == 0 && md[k].next == null
  }

  lemma FilledMore(md: seq<Mbuf>, pieces: seq<seq<uint8>>, piece: seq<uint8>)
    requires |pieces| < |md| && Filled(md, pieces)
    requires var d := md[|pieces|];
             d.dataLen == |piece| && d.buf == piece && d.next == Following(md, |pieces|)
    ensures Filled(md, pieces + [piece])
  {
  }

  lemma FilledNone(md: seq<Mbuf>)
    ensures Filled(md, [])
  {
  }

  lemma UntouchedOne(md: seq<Mbuf>, i: nat)
    requires i < |md| && Untouched(md, i)
    ensures Untouched(md, i + 1) && md[i].buf == []
  {
  }

  lemma MinIsOne(a: int, b: int)
    ensures Min(a, b) == (if a <= b then a else b)
  {
  }

  lemma WriteNew(bytes: seq<uint8>)
    ensures Write([], 0, bytes) == bytes
  {
  }

  ghost predicate HeaderCopied(d: Mbuf, m: Mbuf, nbSegs: nat, pktLen: nat)
    reads d, m
  {
    && d.nbSegs == nbSegs && d.pktLen == pktLen
    && d.vlanTci == m.vlanTci && d.vlanTciOuter == m.vlanTciOuter
    && d.olFlags == m.olFlags && d.txOffload == m.txOffload
  }

  /** The end of mbuf_copy_split: the header of the copy. */
  method CopyHeader(d: Mbuf, m: Mbuf, nbSegs: nat, pktLen: nat)
    requires d != m
    modifies d`nbSegs, d`pktLen, d`vlanTci, d`vlanTciOuter, d`olFlags, d`txOffload
    ensures HeaderCopied(d, m, nbSegs, pktLen)
  {
    d.nbSegs := nbSegs;
    d.pktLen := pktLen;
    d.vlanTci := m.vlanTci;
    d.vlanTciOuter := m.vlanTciOuter;
    d.olFlags := m.olFlags;
    d.txOffload := m.txOffload;
  }

  /** The body of the copying loop without the stepping: open the segment unless it is already open
      with dlen bytes to go, then copy what fits. */
  method CopyTurn(d: Mbuf, following: Mbuf?, length: uint16, s: Mbuf, src: nat, slen: nat, dlen: nat, dst: nat)
    returns (len: nat, left: nat, end: nat)
    requires d != s && src + slen <= |s.buf| && (dlen != 0 ==> dst <= |d.buf|)
    modifies d`dataLen, d`next, d`buf
    ensures var open, at := if dlen == 0 then Min(length, slen) else dlen, if dlen == 0 then 0 else dst;
            && len == Min(slen, open) && left == open - len && end == at + len
            && d.buf == Write(old(d.buf), at, s.buf[src..src + len])
            && d.dataLen == (if dlen == 0 then open else old(d.dataLen))
            && d.next == (if dlen == 0 then following else old(d.next))
  {
    left, end := dlen, dst;
    if left == 0 {
      left := Min(length, slen);
      d.dataLen := left;
      d.next := following;
      end := 0;
    }
    len := Min(slen, left);
    d.buf := Write(d.buf, end, s.buf[src..src + len]);
    left, end := left - len, end + len;
  }

  /** The copying loop of mbuf_copy_split: the first source mbuf not copied in full, and the bytes copied. */
  method CopySegments(m: Mbuf, md: seq<Mbuf>, seglen: seq<uint16>, ghost chain: seq<Mbuf>, ghost data: seq<seq<uint8>>)
    returns (ms: Mbuf?, tlen: nat)
    requires Chain(m, chain) && Holds(chain, data)
    requires 0 < |md| == |seglen| && Untouched(md, 0) && Apart(md, chain)
    modifies md`dataLen, md`next, md`buf
    ensures var cut := Split(data, seglen);
            && (ms == null <==> cut.left == [])
            && (ms == null ==> tlen == |Flatten(data)|)
            && Filled(md, cut.pieces)
  {
    hide Split, Flatten, Chain, Holds, Apart, Write, Filled, Untouched, Progress, Min;
    ms := m;
    var dlen, slen, i := 0, 0, 0;
    tlen := 0;
    var src, dst := 0, 0;
    ghost var j := 0;
    ghost var done: seq<seq<uint8>> := [];
    ProgressStart(data, seglen);
    FirstAt(m, chain, data);
    FilledNone(md);
    while ms != null && i != |md|
      invariant 0 <= i <= |md| && 0 <= j <= |chain| && ms == (if j < |chain| then chain[j] else null)
      invariant Chain(m, chain) && Holds(chain, data)
      invariant dlen == 0 && 0 <= slen && (slen > 0 ==> j < |chain| && slen <= |data[j]| && src == |data[j]| - slen)
      invariant |done| == i && tlen == |Flatten(done)|
      invariant Progress(data, seglen, done, j, slen)
      invariant Filled(md, done) && Untouched(md, i)
      decreases |md| - i
    {
      ChainAt(m, chain, data, j);
      UntouchedOne(md, i);
      ghost var was := slen;
      if slen == 0 {
        slen := ms.dataLen;
        src := 0;
      }
      NoneAlike(md, chain, i);
      MinIsOne(seglen[i], slen);
      MinIsOne(slen, Min(seglen[i], slen));
      ChainSlice(chain, data, j, src, src + Min(slen, Min(seglen[i], slen)));
      var len;
      len, dlen, dst := CopyTurn(md[i], if i + 1 == |md| then null else md[i + 1], seglen[i], ms, src, slen, dlen, dst);
      tlen, slen, src := tlen + len, slen - len, src + len;
      ghost var piece := data[j][src - len..src];
      WriteNew(piece);
      ProgressStep(data, seglen, done, j, was, src - len, src);
      FilledMore(md, done, piece);
      done := done + [piece];
      if slen == 0 {
        ms := ms.next;
        j := j + 1;
      }
      if dlen == 0 {
        i := i + 1;
      }
    }
    ProgressEnd(data, seglen, done, j, slen);
  }

  lemma NotInChain(m: Mbuf, md: seq<Mbuf>, chain: seq<Mbuf>)
    requires Chain(m, chain) && Apart(md, chain)
    ensures m !in md
  {
  }

  /** The number of segments on success, or a negative error code. */
  method MbufCopySplit(m: Mbuf, md: seq<Mbuf>, seglen: seq<uint16>, ghost chain: seq<Mbuf>, ghost data: seq<seq<uint8>>)
    returns (rc: int)
    requires Chain(m, chain) && Holds(chain, data)
    requires 0 < |md| == |seglen| && Untouched(md, 0) && Apart(md, chain)
    modifies md
    ensures var cut := Split(data, seglen);
            rc == if cut.left != [] then -ENOBUFS else if |Flatten(data)| != m.pktLen then -EINVAL else |md|
    ensures rc >= 0 ==>
      var pieces := Split(data, seglen).pieces;
      && Filled(md, pieces)
      && HeaderCopied(md[0], m, |md|, |Flatten(data)|)
  {
    hide Split, Flatten, Chain, Holds, Apart, Filled, Untouched, HeaderCopied;
    NotInChain(m, md, chain);
    var ms, tlen := CopySegments(m, md, seglen, chain, data);
    if ms != null {
      return -ENOBUFS;
    } else if tlen != m.pktLen {
      return -EINVAL;
    }
    CopyHeader(md[0], m, |md|, tlen);
    return |md|;
  }

  // ----- pkt_copy_split: choosing the segments -----

  /** How many of the configured segments are used: no more than it takes to cover the packet. */
  function CountFrom(lengths: seq<uint16>, pktLen: nat, i: nat): (n: nat)
    requires i <= |lengths|
    ensures i <= n <= |lengths|
    ensures forall k :: i <= k < n ==> Total(lengths[..k]) < pktLen
    ensures n == |lengths| || Total(lengths[..n]) >= pktLen
    decreases |lengths| - i
  {
    if i == |lengths| || Total(lengths[..i]) >= pktLen then i else CountFrom(lengths, pktLen, i + 1)
  }

  /** The lengths of the segments: the last one takes the rest of the packet, in 16 bits. */
  function Adjusted(lengths: seq<uint16>, pktLen: nat): (segs: seq<uint16>)
    requires lengths != [] && pktLen > 0
    ensures segs != [] && |segs| == CountFrom(lengths, pktLen, 0)
  {
    var n := CountFrom(lengths, pktLen, 0);
    var rest := ToInt32(pktLen - Total(lengths[..n]));
    assert Total(lengths[..0]) == 0;
    if rest >= 0 then lengths[..n - 1] + [(lengths[n - 1] + rest) % 0x1_0000] else lengths[..n]
  }

  /** A copy that succeeds uses every segment it asked for. */
  lemma EverySegmentUsed(lengths: seq<uint16>, pktLen: nat, data: seq<seq<uint8>>)
    requires lengths != [] && pktLen > 0
    requires Split(data, Adjusted(lengths, pktLen)).left == [] && |Flatten(data)| == pktLen
    ensures |Split(data, Adjusted(lengths, pktLen)).pieces| == |Adjusted(lengths, pktLen)|
    ensures Flatten(Split(data, Adjusted(lengths, pktLen)).pieces) == Flatten(data)
  {
    var segs := Adjusted(lengths, pktLen);
    var cut := Split(data, segs);
    hide Split;
    var p := |cut.pieces|;
    assert p < |segs| ==> segs[..p] == lengths[..p];
    SplitKeepsBytes(data, segs);
    PiecesFit(data, segs);
    assert Flatten([]) == [];
  }

  lemma {:induction false} TotalPrefix(lengths: seq<uint16>, k: nat)
    requires k <= |lengths|
    ensures Total(lengths[..k]) <= Total(lengths)
    decreases |lengths|
  {
    if k < |lengths| {
      var init := lengths[..|lengths| - 1];
      TotalPrefix(init, k);
      assert init[..k] == lengths[..k] && init + [lengths[|init|]] == lengths;
      TotalAppend(init, lengths[|init|]);
    } else {
      assert lengths[..k] == lengths;
    }
  }

  /** What the segments are.  If the configured lengths are enough for the packet, they are as many of
      them as it takes.  If not, they are all of them with the last one grown by what is missing, and
      they are enough exactly if the grown one fits 16 bits. */
  lemma ChosenLengths(lengths: seq<uint16>, pktLen: nat)
    requires lengths != [] && pktLen > 0
    ensures var segs, n := Adjusted(lengths, pktLen), |Adjusted(lengths, pktLen)|;
            && n <= |lengths| && segs[..n - 1] == lengths[..n - 1] && Total(lengths[..n - 1]) < pktLen
            && (Total(lengths) >= pktLen ==> segs == lengths[..n] && Total(segs) >= pktLen)
            && (Total(lengths) < pktLen ==>
                  && n == |lengths|
                  && (Total(segs) == pktLen <==> lengths[n - 1] + (pktLen - Total(lengths)) < 0x1_0000)
                  && (Total(segs) != pktLen ==> Total(segs) < pktLen))
  {
    hide Total;
    var n := CountFrom(lengths, pktLen, 0);
    var segs, before := Adjusted(lengths, pktLen), lengths[..n - 1];
    assert lengths[..n] == before + [lengths[n - 1]] && lengths[..|lengths|] == lengths;
    TotalAppend(before, lengths[n - 1]);
    TotalPrefix(lengths, n);
    var rest := pktLen - Total(lengths[..n]);
    Int32Is(rest);
    if ToInt32(rest) >= 0 {
      var last := (lengths[n - 1] + ToInt32(rest)) % 0x1_0000;
      assert segs == before + [last];
      TotalAppend(before, last);
    }
  }

  lemma Int32Is(x: int)
    ensures -0x8000_0000 <= x < 0x8000_0000 ==> ToInt32(x) == x
    ensures ToInt32(x) >= 0 && x >= 0 ==> ToInt32(x) <= x
    ensures -0x1_0000 < x < 0 ==> ToInt32(x) < 0
  {
  }

  /** A packet for which the last segment would have to be longer than 65535 bytes is not copied. */
  lemma TooLongForLast(lengths: seq<uint16>, pktLen: nat, data: seq<seq<uint8>>, alloc: nat -> Allocation)
    requires lengths != [] && Total(lengths) < pktLen
    requires lengths[|lengths| - 1] + (pktLen - Total(lengths)) >= 0x1_0000
    ensures !Succeeds(lengths, pktLen, data, alloc)
  {
    hide Split, Flatten, AllocatedFrom, Adjusted;
    ChosenLengths(lengths, pktLen);
    if Succeeds(lengths, pktLen, data, alloc) {
      var segs := Adjusted(lengths, pktLen);
      assert segs[..|segs|] == segs;
      EverySegmentUsed(lengths, pktLen, data);
      PiecesFit(data, segs);
    }
  }

  /** The segments for a packet of less than 64 KiB, each with its length. */
  lemma SegmentLengths(lengths: seq<uint16>, pktLen: nat)
    requires lengths != [] && 0 < pktLen < 0x1_0000
    ensures var segs, n := Adjusted(lengths, pktLen), |Adjusted(lengths, pktLen)|;
            && n <= |lengths| && Total(segs[..n - 1]) == Total(lengths[..n - 1]) < pktLen <= Total(segs)
            && forall k :: 0 <= k < n ==> segs[k] == Needed(lengths, pktLen)[k]
  {
    hide Adjusted, Total, Needed;
    var segs, n := Adjusted(lengths, pktLen), |Adjusted(lengths, pktLen)|;
    ChosenLengths(lengths, pktLen);
    var before := lengths[..n - 1];
    assert before + [lengths[n - 1]] == lengths[..n] && lengths[..|lengths|] == lengths;
    assert segs == before + [segs[n - 1]];
    TotalAppend(before, lengths[n - 1]);
    TotalAppend(before, segs[n - 1]);
    TotalPrefix(lengths, n);
    NeededAt(lengths, pktLen);
    forall k | 0 <= k < n ensures segs[k] == Needed(lengths, pktLen)[k] {
      if k < n - 1 { assert segs[k] == before[k] == lengths[k]; }
      else if Total(lengths) >= pktLen { assert segs[k] == lengths[..n][k] == lengths[k]; }
      else { assert segs[k] == lengths[k] + (pktLen - Total(lengths)); }
    }
  }

  /** The room each configured segment needs: the last one also takes what is missing. */
  function Needed(lengths: seq<uint16>, pktLen: nat): (rooms: seq<int>)
    ensures |rooms| == |lengths|
  {
    seq(|lengths|, k requires 0 <= k < |lengths| =>
      lengths[k] + if k == |lengths| - 1 then Max(pktLen - Total(lengths), 0) else 0)
  }

  lemma NeededAt(lengths: seq<uint16>, pktLen: nat)
    ensures forall k :: 0 <= k < |lengths| ==>
              Needed(lengths, pktLen)[k] == lengths[k] + if k == |lengths| - 1 then Max(pktLen - Total(lengths), 0) else 0
  {
  }

  /** The first n allocations serve the first n segments, from the last to the first; the room of the
      first segment does not count. */
  ghost predicate Roomy(alloc: nat -> Allocation, n: nat, rooms: seq<int>) {
    n <= |rooms| && forall j :: 0 <= j < n ==> alloc(j).Given? && (j < n - 1 ==> alloc(j).tailroom >= rooms[n - 1 - j])
  }

  /** A packet in one mbuf is copied if and only if every allocation succeeds and has the room its
      segment needs. */
  lemma SingleSegmentFits(lengths: seq<uint16>, bytes: seq<uint8>, alloc: nat -> Allocation)
    requires lengths != [] && 0 < |bytes| < 0x1_0000
    ensures Succeeds(lengths, |bytes|, [bytes], alloc)
            <==> Roomy(alloc, |Adjusted(lengths, |bytes|)|, Needed(lengths, |bytes|))
  {
    hide Split, Flatten, Adjusted, Total, AllocatedFrom, Roomy, Max, Needed;
    var segs, n := Adjusted(lengths, |bytes|), |Adjusted(lengths, |bytes|)|;
    SegmentLengths(lengths, |bytes|);
    OneSourceSegment(bytes, segs);
    FlattenOne(bytes);
    InOrder(alloc, segs, Needed(lengths, |bytes|));
  }

  /** All segments of the copy but the last one used are filled to their configured lengths. */
  lemma SingleSegmentPieces(lengths: seq<uint16>, bytes: seq<uint8>)
    requires lengths != [] && 0 < |bytes| < 0x1_0000
    ensures var pieces, n := Split([bytes], Adjusted(lengths, |bytes|)).pieces, |Adjusted(lengths, |bytes|)|;
            && |pieces| == n <= |lengths| && (forall k :: 0 <= k < n - 1 ==> |pieces[k]| == lengths[k])
            && |pieces[n - 1]| == |bytes| - Total(lengths[..n - 1])
  {
    hide Split, Adjusted, Total, Needed;
    SegmentLengths(lengths, |bytes|);
    NeededAt(lengths, |bytes|);
    OneSourceLengths(bytes, Adjusted(lengths, |bytes|));
  }

  lemma InOrder(alloc: nat -> Allocation, segs: seq<uint16>, rooms: seq<int>)
    requires |segs| <= |rooms| && forall k :: 0 <= k < |segs| ==> segs[k] == rooms[k]
    ensures AllocatedFrom(alloc, segs, 0) <==> Roomy(alloc, |segs|, rooms)
  {
    var n := |segs|;
    if AllocatedFrom(alloc, segs, 0) {
      forall j | 0 <= j < n ensures alloc(j).Given? && (j < n - 1 ==> alloc(j).tailroom >= rooms[n - 1 - j]) {
        assert ForSegment(alloc, n, n - 1 - j) == alloc(j);
      }
    }
  }

  lemma FlattenOne(bytes: seq<uint8>)
    ensures Flatten([bytes]) == bytes
  {
    assert [bytes][1..] == [] && Flatten([]) == [];
  }

  lemma {:induction false} OneSourceLengths(bytes: seq<uint8>, segs: seq<uint16>)
    requires segs != [] && Total(segs[..|segs| - 1]) < |bytes| <= Total(segs)
    ensures var pieces, n := Split([bytes], segs).pieces, |segs|;
            && |pieces| == n && (forall k :: 0 <= k < n - 1 ==> |pieces[k]| == segs[k])
            && |pieces[n - 1]| == |bytes| - Total(segs[..n - 1])
    decreases |segs|
  {
    if |segs| == 1 {
      assert Total(segs[1..]) == 0 && segs[..0] == [];
      assert After([bytes], segs[0]) == [];
      assert Split(After([bytes], segs[0]), segs[1..]).pieces == [];
    } else {
      var more, n := segs[1..], |segs|;
      assert segs[..n - 1] == [segs[0]] + more[..n - 2];
      assert ([segs[0]] + more[..n - 2])[1..] == more[..n - 2];
      assert After([bytes], segs[0]) == [bytes[segs[0]..]];
      OneSourceLengths(bytes[segs[0]..], more);
    }
  }

  lemma {:induction false} OneSourceSegment(bytes: seq<uint8>, segs: seq<uint16>)
    requires Total(segs) >= |bytes| > 0
    ensures Split([bytes], segs).left == []
    decreases |segs|
  {
    if segs[0] < |bytes| {
      assert After([bytes], segs[0]) == [bytes[segs[0]..]];
      OneSourceSegment(bytes[segs[0]..], segs[1..]);
    } else {
      assert After([bytes], segs[0]) == [];
    }
  }

  // ----- pkt_copy_split: the pool -----

  /** What an allocation gives: nothing, or an mbuf with some room for data. */
  datatype Allocation = Exhausted | Given(tailroom: nat)

  class Pool {
    ghost var inUse: set<Mbuf>

    /** rte_pktmbuf_alloc */
    method Alloc(outcome: Allocation) returns (p: Mbuf?)
      modifies this
      ensures outcome.Exhausted? ==> p == null && inUse == old(inUse)
      ensures outcome.Given? ==>
        && p != null && fresh(p) && p.tailroom == outcome.tailroom && inUse == old(inUse) + {p}
        && p.buf == [] && p.dataLen == 0 && p.next == null
    {
      if outcome.Exhausted? {
        return null;
      }
      p := new Mbuf(outcome.tailroom);
      inUse := inUse + {p};
    }

    /** rte_pktmbuf_free_seg: only an mbuf in use may be freed. */
    method FreeSeg(m: Mbuf)
      requires m in inUse
      modifies this
      ensures inUse == old(inUse) - {m}
    {
      inUse := inUse - {m};
    }
  }

  ghost function Live(md: seq<Mbuf?>, i: nat): set<Mbuf>
    requires i <= |md|
  {
    set m: Mbuf | m in md[i..]
  }

  /** What the allocation for the k-th of n segments gives: the last segment is served first. */
  function ForSegment(alloc: nat -> Allocation, n: nat, k: nat): Allocation
    requires k < n
  {
    alloc(n - 1 - k)
  }

  /** The mbufs from the i-th on are new, different, and the ones allocated for their segments. */
  ghost predicate Ready(md: seq<Mbuf?>, i: nat, segs: seq<uint16>, alloc: nat -> Allocation)
    reads md
  {
    && i <= |md| == |segs|
    && (forall k :: 0 <= k < i ==> md[k] == null)
    && (forall k :: i <= k < |md| ==> md[k] != null && md[k].buf == [] && md[k].dataLen == 0 && md[k].next == null)
    && (forall k :: i <= k < |md| ==> ForSegment(alloc, |segs|, k) == Given(md[k].tailroom))
    && (forall k, l :: i <= k < l < |md| ==> md[k] != md[l])
  }

  /** The allocations for the segments from the i-th on succeed and give enough room, except that
      the room for the first segment does not count. */
  ghost predicate AllocatedFrom(alloc: nat -> Allocation, segs: seq<uint16>, i: nat) {
    forall k :: i <= k < |segs| ==>
      ForSegment(alloc, |segs|, k).Given? && (k > 0 ==> ForSegment(alloc, |segs|, k).tailroom >= segs[k])
  }

  lemma AllocatedOne(alloc: nat -> Allocation, segs: seq<uint16>, i: nat)
    requires i < |segs| && AllocatedFrom(alloc, segs, i + 1)
    ensures var a := ForSegment(alloc, |segs|, i);
            AllocatedFrom(alloc, segs, i) <==> a.Given? && (i > 0 ==> a.tailroom >= segs[i])
    ensures !AllocatedFrom(alloc, segs, i) ==> !AllocatedFrom(alloc, segs, 0)
  {
  }

  lemma LiveMore(md: seq<Mbuf?>, i: nat, p: Mbuf)
    requires i < |md|
    ensures Live(md[i := p], i) == Live(md, i + 1) + {p}
  {
    assert md[i := p][i..] == [p] + md[i + 1..];
  }

  lemma ReadyNone(md: seq<Mbuf?>, segs: seq<uint16>, alloc: nat -> Allocation)
    requires |md| == |segs| && forall k :: 0 <= k < |md| ==> md[k] == null
    ensures Ready(md, |segs|, segs, alloc) && Live(md, |segs|) == {} && AllocatedFrom(alloc, segs, |segs|)
  {
  }

  lemma ReadyMore(md: seq<Mbuf?>, i: nat, p: Mbuf, segs: seq<uint16>, alloc: nat -> Allocation)
    requires i < |md| && Ready(md, i + 1, segs, alloc) && p !in Live(md, i + 1)
    requires p.buf == [] && p.dataLen == 0 && p.next == null && ForSegment(alloc, |segs|, i) == Given(p.tailroom)
    ensures Ready(md[i := p], i, segs, alloc)
  {
    hide ForSegment;
    forall k | i < k < |md| ensures md[k] != p { assert md[k] == md[i + 1..][k - i - 1]; }
  }

  /** The allocation loop of pkt_copy_split, from the last segment to the first; i is the last one
      allocated. */
  method AllocateAll(pool: Pool, segs: seq<uint16>, alloc: nat -> Allocation) returns (md: seq<Mbuf?>, i: nat)
    requires segs != []
    modifies pool
    ensures Ready(md, i, segs, alloc) && fresh(Live(md, i))
    ensures pool.inUse == old(pool.inUse) + Live(md, i)
    ensures i == 0 <==> AllocatedFrom(alloc, segs, 0)
  {
    hide Ready, ForSegment, AllocatedFrom, Live;
    md, i := seq(|segs|, _ => null), |segs|;
    ReadyNone(md, segs, alloc);
    while i != 0
      invariant 0 <= i <= |md| == |segs|
      invariant Ready(md, i, segs, alloc) && fresh(Live(md, i))
      invariant AllocatedFrom(alloc, segs, i)
      invariant pool.inUse == old(pool.inUse) + Live(md, i)
      decreases i
    {
      AllocatedOne(alloc, segs, i - 1);
      var p := pool.Alloc(ForSegment(alloc, |segs|, i - 1));
      if p == null {
        break;
      }
      i := i - 1;
      ReadyMore(md, i, p, segs, alloc);
      LiveMore(md, i, p);
      md := md[i := p];
      if p.tailroom < segs[i] {
        break;
      }
    }
  }

  /** The freeing loop of pkt_copy_split. */
  method FreeFrom(pool: Pool, md: seq<Mbuf?>, from: nat) returns (left: seq<Mbuf?>)
    requires from <= |md|
    requires forall k :: from <= k < |md| ==> md[k] != null
    requires forall k, l :: from <= k < l < |md| ==> md[k] != md[l]
    requires Live(md, from) <= pool.inUse
    modifies pool
    ensures pool.inUse == old(pool.inUse) - Live(md, from)
    ensures |left| == |md| && left[..from] == md[..from] && forall k :: from <= k < |md| ==> left[k] == null
  {
    left := md;
    var i := from;
    while i != |md|
      invariant from <= i <= |md| == |left|
      invariant left[..from] == md[..from] && left[i..] == md[i..]
      invariant forall k :: from <= k < i ==> left[k] == null
      invariant pool.inUse == old(pool.inUse) - (Live(md, from) - Live(md, i)) && Live(md, i) <= pool.inUse
    {
      assert md[i..] == [md[i]] + md[i + 1..];
      pool.FreeSeg(left[i]);
      left := left[i := null];
      i := i + 1;
    }
  }

  // ----- pkt_copy_split -----

  /** When a copy is made: every allocation is good, and the segments hold the whole source, whose
      size is what its header says. */
  ghost predicate Succeeds(lengths: seq<uint16>, pktLen: nat, data: seq<seq<uint8>>, alloc: nat -> Allocation)
    requires lengths != [] && pktLen > 0
  {
    var segs := Adjusted(lengths, pktLen);
    AllocatedFrom(alloc, segs, 0) && Split(data, segs).left == [] && |Flatten(data)| == pktLen
  }

  /** The room of the mbuf for the first segment is looked at only as the loop ends anyway, so a copy
      stays within its mbufs exactly when the first of them is large enough. */
  lemma CopyFits(lengths: seq<uint16>, pktLen: nat, data: seq<seq<uint8>>, alloc: nat -> Allocation)
    requires lengths != [] && pktLen > 0 && Succeeds(lengths, pktLen, data, alloc)
    ensures var pieces := Split(data, Adjusted(lengths, pktLen)).pieces;
            && |pieces| == |Adjusted(lengths, pktLen)|
            && ((forall k :: 0 <= k < |pieces| ==> |pieces[k]| <= ForSegment(alloc, |pieces|, k).tailroom)
                <==> |pieces[0]| <= ForSegment(alloc, |pieces|, 0).tailroom)
  {
    hide Split, Flatten, ForSegment, Adjusted;
    EverySegmentUsed(lengths, pktLen, data);
  }

  /** Four bytes are copied into an mbuf without room for any. */
  lemma FirstRoomUnchecked()
    ensures Succeeds([4], 4, [[1, 2, 3, 4]], _ => Given(0))
  {
    var lengths: seq<uint16>, bytes: seq<uint8> := [4], [1, 2, 3, 4];
    assert lengths[..1] == lengths && Total(lengths) == 4;
    SingleSegmentFits(lengths, bytes, _ => Given(0));
  }

  /** The counting loop of pkt_copy_split and the adjustment of the last length. */
  method ChooseLengths(lengths: seq<uint16>, pktLen: nat) returns (seglen: seq<uint16>)
    requires lengths != [] && pktLen > 0
    ensures seglen == Adjusted(lengths, pktLen)
  {
    seglen := lengths;
    var len, i := 0, 0;
    assert lengths[..0] == [] && lengths[..|lengths|] == lengths;
    while i != |lengths| && len < pktLen
      invariant 0 <= i <= |lengths| && len == Total(lengths[..i]) && (i == 0 ==> len == 0)
      invariant CountFrom(lengths, pktLen, i) == CountFrom(lengths, pktLen, 0)
      decreases |lengths| - i
    {
      assert lengths[..i + 1] == lengths[..i] + [lengths[i]];
      TotalAppend(lengths[..i], lengths[i]);
      len := len + seglen[i];
      i := i + 1;
    }
    var n := ToInt32(pktLen - len);
    if n >= 0 {
      seglen := seglen[i - 1 := (seglen[i - 1] + n) % 0x1_0000];
    }
    seglen := seglen[..i];
  }

  lemma ReadyNew(md: seq<Mbuf?>, i: nat, segs: seq<uint16>, alloc: nat -> Allocation)
    requires Ready(md, i, segs, alloc)
    ensures |md| == |segs| && i <= |md| && (forall k :: 0 <= k < i ==> md[k] == null)
    ensures forall k :: i <= k < |md| ==> md[k] != null
    ensures forall k, l :: i <= k < l < |md| ==> md[k] != md[l]
    ensures forall k :: i <= k < |md| ==> ForSegment(alloc, |segs|, k) == Given(md[k].tailroom)
  {
  }

  lemma NoneLeft(md: seq<Mbuf?>)
    ensures Live(md, |md|) == {} && md[..|md|] == md
  {
  }

  lemma ReadyApart(md: seq<Mbuf>, segs: seq<uint16>, alloc: nat -> Allocation, chain: seq<Mbuf>)
    requires Ready(md, 0, segs, alloc) && forall m :: m in chain ==> m !in Live(md, 0)
    ensures Untouched(md, 0) && Apart(md, chain) && Live(md, 0) == set m | m in md
  {
    assert md[0..] == md;
    forall k | 0 <= k < |md| ensures md[k] !in chain { assert md[k] in Live(md, 0); }
  }

  lemma FilledAll(md: seq<Mbuf>, pieces: seq<seq<uint8>>)
    requires |md| == |pieces| > 0 && Filled(md, pieces)
    ensures Chain(md[0], md) && Holds(md, pieces)
  {
  }

  lemma RoomEnough(md: seq<Mbuf>, pieces: seq<seq<uint8>>, segs: seq<uint16>, alloc: nat -> Allocation)
    requires |md| == |pieces| == |segs| && Filled(md, pieces) && AllocatedFrom(alloc, segs, 0)
    requires forall k :: 0 <= k < |md| ==> |pieces[k]| <= segs[k] && ForSegment(alloc, |segs|, k) == Given(md[k].tailroom)
    ensures forall k :: 1 <= k < |md| ==> md[k].dataLen <= md[k].tailroom
  {
    hide ForSegment;
  }

  /** Either a complete copy in exactly the chosen segments, or nothing, with every mbuf taken from
      the pool given back. */
  method PktCopySplit(pkt: Mbuf, lengths: seq<uint16>, pool: Pool, alloc: nat -> Allocation,
                      ghost chain: seq<Mbuf>, ghost data: seq<seq<uint8>>)
    returns (copy: Mbuf?, ghost packet: seq<Mbuf>, ghost pieces: seq<seq<uint8>>)
    requires Chain(pkt, chain) && Holds(chain, data)
    requires 0 < |lengths| && pkt.pktLen > 0
    modifies pool
    ensures copy != null <==> Succeeds(lengths, pkt.pktLen, data, alloc)
    ensures copy == null ==> pool.inUse == old(pool.inUse)
    ensures copy != null ==>
      && Chain(copy, packet) && Holds(packet, pieces) && |packet| == |Adjusted(lengths, pkt.pktLen)|
      && pieces == Split(data, Adjusted(lengths, pkt.pktLen)).pieces && Flatten(pieces) == Flatten(data)
      && HeaderCopied(copy, pkt, |packet|, |Flatten(data)|)
      && pool.inUse == old(pool.inUse) + (set m | m in packet) && fresh(set m | m in packet)
    ensures copy != null ==> forall k :: 1 <= k < |packet| ==> packet[k].dataLen <= packet[k].tailroom
  {
    hide Split, Flatten, Chain, Holds, Apart, Filled, Untouched, HeaderCopied, Ready, ForSegment, AllocatedFrom, Adjusted, Live;
    var seglen := ChooseLengths(lengths, pkt.pktLen);
    var md, i := AllocateAll(pool, seglen, alloc);
    ReadyNew(md, i, seglen, alloc);
    NoneLeft(md);
    ghost var taken := Live(md, i);
    assert taken !! old(pool.inUse);
    packet, pieces := [], [];
    if i == 0 {
      var all: seq<Mbuf> := md;
      packet, pieces := all, Split(data, seglen).pieces;
      ReadyApart(all, seglen, alloc, chain);
      assert taken == set m | m in all;
      assert fresh(taken) && pkt !in taken;
      forall k | 0 <= k < |all| ensures fresh(all[k]) { assert all[k] in taken; }
      var rc := MbufCopySplit(pkt, all, seglen, chain, data);
      if rc >= 0 {
        assert HeaderCopied(all[0], pkt, |all|, |Flatten(data)|);
        EverySegmentUsed(lengths, pkt.pktLen, data);
        FilledAll(all, pieces);
        RoomEnough(all, pieces, seglen, alloc);
      }
      i := Max(rc, 0);
    }
    md := FreeFrom(pool, md, i);
    copy := md[0];
  }
}
