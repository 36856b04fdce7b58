/** Netlink messages as bytes: headers, attributes, and how a receiver cuts a reply into messages (RFC 3549, section
    2.3.2, and the builders of proot-master/src/syscall/enter.c). */
module Netlink {
  import opened Wrappers
  import opened Words

  const NLMSG_HDRLEN: nat := 16
  const NLMSG_ERROR: nat := 2
  const NLMSG_DONE: nat := 3
  const NLM_F_MULTI: nat := 2

  // ---------------------------------------------------------------- layout

  /** Bytes that align `n` to 4. */
  function Gap(n: nat): (g: nat)
    ensures g < 4 && (n + g) % 4 == 0
  {
    (4 - n % 4) % 4
  }

  function Align(n: nat): (a: nat)
    ensures n <= a < n + 4 && a % 4 == 0
  {
    n + Gap(n)
  }

  function Zeroes(n: nat): (s: seq<nat>)
    ensures |s| == n
  {
    seq(n, _ => 0)
  }

  function U16(v: nat): (s: seq<nat>)
    ensures |s| == 2
  {
    Bytes(v, 2)
  }

  function U32(v: nat): (s: seq<nat>)
    ensures |s| == 4
  {
    Bytes(v, 4)
  }

  datatype Attr = Attr(kind: nat, data: seq<nat>)

  /** An attribute: length and kind, the data, padding. */
  function AttrBytes(a: Attr): (s: seq<nat>)
    ensures |s| == 4 + Align(|a.data|) && |s| % 4 == 0
  {
    U16(4 + |a.data|) + U16(a.kind) + a.data + Zeroes(Gap(|a.data|))
  }

  lemma SumAligned(a: nat, b: nat)
    requires a % 4 == 0 && b % 4 == 0
    ensures (a + b) % 4 == 0
  {
  }

  function AttrsBytes(attrs: seq<Attr>): (s: seq<nat>)
    ensures |s| % 4 == 0
  {
    if attrs == [] then []
    else
      SumAligned(|AttrsBytes(attrs[..|attrs| - 1])|, |AttrBytes(attrs[|attrs| - 1])|);
      AttrsBytes(attrs[..|attrs| - 1]) + AttrBytes(attrs[|attrs| - 1])
  }

  datatype Msg = Msg(kind: nat, flags: nat, sequence: nat, pid: nat, body: seq<nat>)

  function HeaderBytes(m: Msg): (s: seq<nat>)
    ensures |s| == NLMSG_HDRLEN
  {
    U32(NLMSG_HDRLEN + |m.body|) + U16(m.kind) + U16(m.flags) + U32(m.sequence) + U32(m.pid)
  }

  function MsgBytes(m: Msg): (s: seq<nat>)
    ensures |s| == NLMSG_HDRLEN + Align(|m.body|) && |s| % 4 == 0
  {
    HeaderBytes(m) + m.body + Zeroes(Gap(|m.body|))
  }

  function Encode(ms: seq<Msg>): (s: seq<nat>)
    ensures |s| % 4 == 0
  {
    if ms == [] then []
    else
      SumAligned(|MsgBytes(ms[0])|, |Encode(ms[1..])|);
      MsgBytes(ms[0]) + Encode(ms[1..])
  }

  lemma {:induction false} EncodeSnoc(ms: seq<Msg>, m: Msg)
    ensures Encode(ms + [m]) == Encode(ms) + MsgBytes(m)
    decreases |ms|
  {
    if ms == [] {
      assert ms + [m] == [m];
      assert Encode([m][1..]) == [];
    } else {
      assert (ms + [m])[1..] == ms[1..] + [m];
      EncodeSnoc(ms[1..], m);
      Associates(MsgBytes(ms[0]), Encode(ms[1..]), MsgBytes(m));
    }
  }

  // ---------------------------------------------------------------- cutting a reply

  /** The walk of a receiver, by the length fields, over the whole reply. */
  function Parse(bytes: seq<nat>): Option<seq<Msg>>
    decreases |bytes|
  {
    if bytes == [] then Some([])
    else if |bytes| < NLMSG_HDRLEN then None
    else
      var len := Value(bytes[..4]);
      if len < NLMSG_HDRLEN || Align(len) > |bytes| then None
      else
        match Parse(bytes[Align(len)..])
        case None => None
        case Some(rest) =>
          Some([Msg(Value(bytes[4..6]), Value(bytes[6..8]), Value(bytes[8..12]), Value(bytes[12..16]), bytes[16..len])] + rest)
  }

  ghost predicate Fits(m: Msg) {
    && NLMSG_HDRLEN + |m.body| < 0x1_0000_0000
    && m.kind < 0x1_0000 && m.flags < 0x1_0000 && m.sequence < 0x1_0000_0000 && m.pid < 0x1_0000_0000
  }

  lemma Value16(v: nat)
    requires v < 0x1_0000
    ensures Value(U16(v)) == v
  {
    ValueBytes(v, 2);
    assert Bound(2) == 0x1_0000;
  }

  lemma Value32(v: nat)
    requires v < 0x1_0000_0000
    ensures Value(U32(v)) == v
  {
    ValueBytes(v, 4);
    assert Bound(4) == 0x1_0000_0000;
  }

  /** Where the fields of a header are. */
  lemma HeaderFields(m: Msg, rest: seq<nat>)
    ensures var s := MsgBytes(m) + rest;
      && s[..4] == U32(NLMSG_HDRLEN + |m.body|) && s[4..6] == U16(m.kind) && s[6..8] == U16(m.flags)
      && s[8..12] == U32(m.sequence) && s[12..16] == U32(m.pid) && s[16..16 + |m.body|] == m.body
      && s[NLMSG_HDRLEN + Align(|m.body|)..] == rest
  {
  }

  /** A receiver finds exactly the messages that were put in. */
  lemma {:induction false} ParseEncoded(ms: seq<Msg>)
    requires forall i :: 0 <= i < |ms| ==> Fits(ms[i])
    ensures Parse(Encode(ms)) == Some(ms)
    decreases |ms|
  {
    if ms != [] {
      var m, rest := ms[0], Encode(ms[1..]);
      ParseEncoded(ms[1..]);
      ParseOne(m, rest, ms[1..]);
      assert [m] + ms[1..] == ms;
    }
  }

  lemma ParseOne(m: Msg, rest: seq<nat>, ms: seq<Msg>)
    requires Fits(m) && Parse(rest) == Some(ms)
    ensures Parse(MsgBytes(m) + rest) == Some([m] + ms)
  {
    HeaderFields(m, rest);
    Value32(NLMSG_HDRLEN + |m.body|);
    Value16(m.kind);
    Value16(m.flags);
    Value32(m.sequence);
    Value32(m.pid);
    AlignPast(|m.body|);
    ParseStep(MsgBytes(m) + rest, NLMSG_HDRLEN + |m.body|, NLMSG_HDRLEN + Align(|m.body|), rest, ms);
  }

  lemma AlignPast(n: nat)
    ensures Align(NLMSG_HDRLEN + n) == NLMSG_HDRLEN + Align(n)
  {
  }

  lemma ParseStep(bytes: seq<nat>, len: nat, end: nat, rest: seq<nat>, ms: seq<Msg>)
    requires NLMSG_HDRLEN <= len <= end <= |bytes| && len == Value(bytes[..4]) && end == Align(len)
    requires bytes[end..] == rest && Parse(rest) == Some(ms)
    ensures Parse(bytes) ==
      Some([Msg(Value(bytes[4..6]), Value(bytes[6..8]), Value(bytes[8..12]), Value(bytes[12..16]), bytes[16..len])] + ms)
  {
  }

  // ---------------------------------------------------------------- cutting attributes

  /** The walk over attributes from `off`, as the source does it: it stops at the first that does not fit. */
  function Walk(bytes: seq<nat>, off: nat): seq<Attr>
    decreases |bytes| - off
  {
    if off + 4 > |bytes| then []
    else
      var len := Value(bytes[off..off + 2]);
      if len < 4 || off + len > |bytes| then []
      else [Attr(Value(bytes[off + 2..off + 4]), bytes[off + 4..off + len])] + Walk(bytes, off + Align(len))
  }

  ghost predicate AttrFits(a: Attr) {
    4 + |a.data| < 0x1_0000 && a.kind < 0x1_0000
  }

  lemma AttrFields(before: seq<nat>, a: Attr, rest: seq<nat>)
    ensures var s, off := before + AttrBytes(a) + rest, |before|;
      && off + 4 + |a.data| <= |s| && s[off..off + 2] == U16(4 + |a.data|) && s[off + 2..off + 4] == U16(a.kind)
      && s[off + 4..off + 4 + |a.data|] == a.data
  {
    var s, off := before + AttrBytes(a) + rest, |before|;
    assert s[off..off + 4 + Align(|a.data|)] == AttrBytes(a);
  }

  lemma {:induction false} AttrsCons(a: Attr, attrs: seq<Attr>)
    ensures AttrsBytes([a] + attrs) == AttrBytes(a) + AttrsBytes(attrs)
    decreases |attrs|
  {
    if attrs == [] {
      assert [a] + attrs == [a];
      assert AttrsBytes([a][..0]) == [];
    } else {
      var n := |attrs| - 1;
      assert ([a] + attrs)[..|attrs|] == [a] + attrs[..n];
      AttrsCons(a, attrs[..n]);
      Associates(AttrBytes(a), AttrsBytes(attrs[..n]), AttrBytes(attrs[n]));
    }
  }

  /** The walk over encoded attributes finds each of them. */
  lemma {:induction false} WalkEncoded(before: seq<nat>, attrs: seq<Attr>, off: nat)
    requires off == |before| && forall i :: 0 <= i < |attrs| ==> AttrFits(attrs[i])
    ensures Walk(before + AttrsBytes(attrs), off) == attrs
    decreases |attrs|
  {
    if attrs != [] {
      var a, rest := attrs[0], attrs[1..];
      assert [a] + rest == attrs;
      AttrsCons(a, rest);
      var next := before + AttrBytes(a);
      Associates(before, AttrBytes(a), AttrsBytes(rest));
      AttrFields(before, a, AttrsBytes(rest));
      WalkOne(next + AttrsBytes(rest), off, a, |next|);
      WalkEncoded(next, rest, |next|);
    }
  }

  lemma WalkOne(s: seq<nat>, off: nat, a: Attr, next: nat)
    requires AttrFits(a) && off + 4 + |a.data| <= |s| && next == off + 4 + Align(|a.data|)
    requires s[off..off + 2] == U16(4 + |a.data|) && s[off + 2..off + 4] == U16(a.kind) && s[off + 4..off + 4 + |a.data|] == a.data
    ensures Walk(s, off) == [a] + Walk(s, next)
  {
    Value16(4 + |a.data|);
    Value16(a.kind);
    assert Align(4 + |a.data|) == 4 + Align(|a.data|);
  }
}
