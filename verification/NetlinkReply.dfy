/** The fake netlink replies (proot-master/src/syscall/enter.c): messages built in a buffer of fixed size, dumps that
    always end with a terminator, and the request decoder. */
module NetlinkReply {
  import opened Wrappers
  import opened Bits
  import opened Words
  import opened Netlink

  const RTM_NEWLINK: nat := 16
  const RTM_NEWADDR: nat := 20
  const IFLA_ADDRESS: nat := 1
  const IFLA_BROADCAST: nat := 2
  const IFLA_IFNAME: nat := 3
  const IFLA_MTU: nat := 4
  const IFLA_TXQLEN: nat := 13
  const IFLA_OPERSTATE: nat := 16
  const IFA_ADDRESS: nat := 1
  const IFA_LOCAL: nat := 2
  const IFA_LABEL: nat := 3
  const IFNAMSIZ: nat := 16

  // ---------------------------------------------------------------- writing

  method Put(buf: array<nat>, at: nat, bytes: seq<nat>)
    requires at + |bytes| <= buf.Length
    modifies buf
    ensures buf[at..at + |bytes|] == bytes
    ensures forall k :: 0 <= k < buf.Length && !(at <= k < at + |bytes|) ==> buf[k] == old(buf[k])
  {
    forall i | 0 <= i < |bytes| {
      buf[at + i] := bytes[i];
    }
  }

  method Append(buf: array<nat>, at: nat, bytes: seq<nat>)
    requires at + |bytes| <= buf.Length
    modifies buf
    ensures buf[..at + |bytes|] == old(buf[..at]) + bytes
  {
    Put(buf, at, bytes);
  }

  /** `nl_add_attr`: an attribute that does not fit is dropped. */
  method AddAttr(buf: array<nat>, off: nat, max: nat, a: Attr) returns (off': nat)
    requires off <= max <= buf.Length
    modifies buf
    ensures off <= off' <= max
    ensures buf[..off'] == old(buf[..off]) + if off + |AttrBytes(a)| > max then [] else AttrBytes(a)
  {
    var bytes := AttrBytes(a);
    if off + |bytes| > max {
      return off;
    }
    Append(buf, off, bytes);
    return off + |bytes|;
  }

  /** The attributes that fit, one after the other, from `off` up to `max`. */
  function Kept(attrs: seq<Attr>, off: nat, max: nat): seq<Attr> {
    if attrs == [] then []
    else
      var k := Kept(attrs[..|attrs| - 1], off, max);
      if off + |AttrsBytes(k)| + |AttrBytes(attrs[|attrs| - 1])| > max then k else k + [attrs[|attrs| - 1]]
  }

  lemma AttrsSnoc(attrs: seq<Attr>, a: Attr)
    ensures AttrsBytes(attrs + [a]) == AttrsBytes(attrs) + AttrBytes(a)
  {
    assert (attrs + [a])[..|attrs|] == attrs;
  }

  /** With room for all, none is dropped. */
  lemma {:induction false} AllKept(attrs: seq<Attr>, off: nat, max: nat)
    requires off + |AttrsBytes(attrs)| <= max
    ensures Kept(attrs, off, max) == attrs
    decreases |attrs|
  {
    if attrs != [] {
      var n := |attrs| - 1;
      AllKept(attrs[..n], off, max);
      assert attrs[..n] + [attrs[n]] == attrs;
    }
  }

  /** One `nl_add_attr` after the other. */
  method AddAttrs(buf: array<nat>, off: nat, max: nat, attrs: seq<Attr>) returns (off': nat)
    requires off <= max <= buf.Length
    modifies buf
    ensures off' == off + |AttrsBytes(Kept(attrs, off, max))| <= max
    ensures buf[..off'] == old(buf[..off]) + AttrsBytes(Kept(attrs, off, max))
  {
    off' := off;
    assert buf[..off] + [] == buf[..off];
    for i := 0 to |attrs|
      invariant off' == off + |AttrsBytes(Kept(attrs[..i], off, max))| <= max
      invariant buf[..off'] == old(buf[..off]) + AttrsBytes(Kept(attrs[..i], off, max))
    {
      ghost var k := Kept(attrs[..i], off, max);
      assert attrs[..i + 1][..i] == attrs[..i];
      AttrsSnoc(k, attrs[i]);
      Associates(old(buf[..off]), AttrsBytes(k), AttrBytes(attrs[i]));
      off' := AddAttr(buf, off', max, attrs[i]);
    }
    assert attrs[..|attrs|] == attrs;
  }

  /** A message to build: its kind, the fixed part of its body and its attributes. */
  datatype Item = Item(kind: nat, fixed: seq<nat>, attrs: seq<Attr>)

  function ItemSize(i: Item): nat {
    NLMSG_HDRLEN + |i.fixed| + |AttrsBytes(i.attrs)|
  }

  function ItemMsg(i: Item, flags: nat, sequence: nat, pid: nat): Msg {
    Msg(i.kind, flags, sequence, pid, i.fixed + AttrsBytes(i.attrs))
  }

  /** What is built at `start`: nothing without room for the fixed part. */
  function BuiltBytes(i: Item, start: nat, max: nat, flags: nat, sequence: nat, pid: nat): seq<nat> {
    if start + NLMSG_HDRLEN + |i.fixed| > max then []
    else MsgBytes(ItemMsg(i.(attrs := Kept(i.attrs, start + NLMSG_HDRLEN + |i.fixed|, max)), flags, sequence, pid))
  }

  /** `nl_build_link` and `nl_build_addr`: the body first, then the header, whose length is known only then. */
  method BuildMessage(buf: array<nat>, start: nat, max: nat, flags: nat, sequence: nat, pid: nat, item: Item) returns (off: nat)
    requires start <= max <= buf.Length && |item.fixed| % 4 == 0
    modifies buf
    ensures off == start + |BuiltBytes(item, start, max, flags, sequence, pid)| <= max
    ensures buf[..off] == old(buf[..start]) + BuiltBytes(item, start, max, flags, sequence, pid)
  {
    if start + NLMSG_HDRLEN + |item.fixed| > max {
      return start;
    }
    var at, next := start + NLMSG_HDRLEN, start + NLMSG_HDRLEN + |item.fixed|;
    ghost var before := buf[..at];
    ghost var kept;
    assert before[..start] == buf[..start];
    off, kept := BuildBody(buf, at, next, max, item);
    BuiltAs(item, start, next, max, flags, sequence, pid, kept);
    AddHeader(buf, start, off, item.kind, flags, sequence, pid, before, item.fixed + AttrsBytes(kept));
  }

  lemma BuiltAs(i: Item, start: nat, next: nat, max: nat, flags: nat, sequence: nat, pid: nat, kept: seq<Attr>)
    requires |i.fixed| % 4 == 0 && next == start + NLMSG_HDRLEN + |i.fixed| <= max && kept == Kept(i.attrs, next, max)
    ensures BuiltBytes(i, start, max, flags, sequence, pid) == MsgBytes(Msg(i.kind, flags, sequence, pid, i.fixed + AttrsBytes(kept)))
    ensures |i.fixed + AttrsBytes(kept)| % 4 == 0
    ensures |BuiltBytes(i, start, max, flags, sequence, pid)| == NLMSG_HDRLEN + |i.fixed| + |AttrsBytes(kept)|
  {
    SumAligned(|i.fixed|, |AttrsBytes(kept)|);
    NoPadding(Msg(i.kind, flags, sequence, pid, i.fixed + AttrsBytes(kept)));
  }

  method BuildBody(buf: array<nat>, at: nat, next: nat, max: nat, item: Item) returns (off: nat, ghost kept: seq<Attr>)
    requires next == at + |item.fixed| <= max <= buf.Length
    modifies buf
    ensures kept == Kept(item.attrs, next, max) && off == next + |AttrsBytes(kept)| <= max
    ensures buf[..off] == old(buf[..at]) + (item.fixed + AttrsBytes(kept))
  {
    kept := Kept(item.attrs, next, max);
    Append(buf, at, item.fixed);
    off := AppendAttrs(buf, next, max, item.attrs, old(buf[..at]), item.fixed, kept);
  }

  method AppendAttrs(buf: array<nat>, off: nat, max: nat, attrs: seq<Attr>, ghost a: seq<nat>, ghost b: seq<nat>, ghost kept: seq<Attr>)
    returns (off': nat)
    requires off <= max <= buf.Length && buf[..off] == a + b && kept == Kept(attrs, off, max)
    modifies buf
    ensures off' == off + |AttrsBytes(kept)| <= max && buf[..off'] == a + (b + AttrsBytes(kept))
  {
    Associates(a, b, AttrsBytes(kept));
    off' := AddAttrs(buf, off, max, attrs);
  }

  method AddHeader(buf: array<nat>, start: nat, off: nat, kind: nat, flags: nat, sequence: nat, pid: nat, ghost before: seq<nat>, ghost body: seq<nat>)
    requires |before| == start + NLMSG_HDRLEN <= off <= buf.Length && buf[..off] == before + body && |body| % 4 == 0
    modifies buf
    ensures buf[..off] == before[..start] + MsgBytes(Msg(kind, flags, sequence, pid, body))
  {
    ghost var was := buf[..off];
    assert buf[start + NLMSG_HDRLEN..off] == was[start + NLMSG_HDRLEN..] == body;
    var header := HeaderBytes(Msg(kind, flags, sequence, pid, buf[start + NLMSG_HDRLEN..off]));
    Put(buf, start, header);
    Whole(buf[..off], was, before, header, body, start);
    NoPadding(Msg(kind, flags, sequence, pid, body));
  }

  lemma NoPadding(m: Msg)
    requires |m.body| % 4 == 0
    ensures MsgBytes(m) == HeaderBytes(m) + m.body
  {
  }

  lemma Whole(now: seq<nat>, was: seq<nat>, before: seq<nat>, header: seq<nat>, body: seq<nat>, start: nat)
    requires was == before + body && |now| == |was| && |before| == start + |header| && now[start..start + |header|] == header
    requires forall k :: 0 <= k < |now| && !(start <= k < start + |header|) ==> now[k] == was[k]
    ensures now == before[..start] + (header + body)
  {
    forall k | 0 <= k < |now|
      ensures now[k] == (before[..start] + (header + body))[k]
    {
      if start <= k < start + |header| {
        assert now[k] == now[start..start + |header|][k - start];
      }
    }
  }

  /** With room for the whole item, it is built whole. */
  lemma BuiltWhole(i: Item, start: nat, max: nat, flags: nat, sequence: nat, pid: nat)
    requires start + ItemSize(i) <= max && |i.fixed| % 4 == 0
    ensures BuiltBytes(i, start, max, flags, sequence, pid) == MsgBytes(ItemMsg(i, flags, sequence, pid))
    ensures |MsgBytes(ItemMsg(i, flags, sequence, pid))| == ItemSize(i)
  {
    AllKept(i.attrs, start + NLMSG_HDRLEN + |i.fixed|, max);
    SumAligned(|i.fixed|, |AttrsBytes(i.attrs)|);
    NoPadding(ItemMsg(i, flags, sequence, pid));
  }

  // ---------------------------------------------------------------- dumps

  const DONE_SIZE: nat := 20
  const RESERVE: nat := 256

  function DoneMsg(sequence: nat, pid: nat): Msg {
    Msg(NLMSG_DONE, NLM_F_MULTI, sequence, pid, U32(0))
  }

  lemma DoneSize(sequence: nat, pid: nat)
    ensures |MsgBytes(DoneMsg(sequence, pid))| == DONE_SIZE
  {
  }

  /** `nl_build_done`, where it fits. */
  method BuildDone(buf: array<nat>, off: nat, max: nat, sequence: nat, pid: nat, ghost done: seq<Msg>) returns (off': nat)
    requires off + DONE_SIZE <= max <= buf.Length && buf[..off] == Encode(done)
    modifies buf
    ensures off' == off + DONE_SIZE && buf[..off'] == Encode(done + [DoneMsg(sequence, pid)])
  {
    DoneSize(sequence, pid);
    EncodeSnoc(done, DoneMsg(sequence, pid));
    Append(buf, off, MsgBytes(DoneMsg(sequence, pid)));
    off' := off + DONE_SIZE;
  }

  function ItemMsgs(items: seq<Item>, flags: nat, sequence: nat, pid: nat): (ms: seq<Msg>)
    ensures |ms| == |items| && forall i :: 0 <= i < |items| ==> ms[i] == ItemMsg(items[i], flags, sequence, pid)
  {
    seq(|items|, i requires 0 <= i < |items| => ItemMsg(items[i], flags, sequence, pid))
  }

  /** An item that, with the terminator, fits the reserve. */
  ghost predicate Small(i: Item) {
    |i.fixed| % 4 == 0 && ItemSize(i) + DONE_SIZE <= RESERVE
  }

  /** The loops of `build_host_links` and `build_host_addrs`: items are added while the reserve is free. */
  method BuildItems(buf: array<nat>, max: nat, flags: nat, sequence: nat, pid: nat, items: seq<Item>) returns (off: nat, built: nat)
    requires RESERVE <= max <= buf.Length && forall i :: 0 <= i < |items| ==> Small(items[i])
    modifies buf
    ensures built <= |items| && (items != [] ==> built > 0) && off + DONE_SIZE <= max
    ensures buf[..off] == Encode(ItemMsgs(items[..built], flags, sequence, pid))
    ensures built < |items| ==> off + RESERVE > max
  {
    off, built := 0, 0;
    while built < |items|
      invariant built <= |items| && off + DONE_SIZE <= max && (built == 0 ==> off == 0)
      invariant buf[..off] == Encode(ItemMsgs(items[..built], flags, sequence, pid))
    {
      if off + RESERVE > max {
        break;
      }
      off := BuildNext(buf, off, max, flags, sequence, pid, items, built);
      built := built + 1;
    }
  }

  method BuildNext(buf: array<nat>, start: nat, max: nat, flags: nat, sequence: nat, pid: nat, items: seq<Item>, k: nat) returns (off: nat)
    requires k < |items| && Small(items[k]) && start + RESERVE <= max <= buf.Length
    requires buf[..start] == Encode(ItemMsgs(items[..k], flags, sequence, pid))
    modifies buf
    ensures off + DONE_SIZE <= max && buf[..off] == Encode(ItemMsgs(items[..k + 1], flags, sequence, pid))
  {
    ghost var before, msg := ItemMsgs(items[..k], flags, sequence, pid), ItemMsg(items[k], flags, sequence, pid);
    BuiltWhole(items[k], start, max, flags, sequence, pid);
    off := BuildMessage(buf, start, max, flags, sequence, pid, items[k]);
    EncodeSnoc(before, msg);
    assert before + [msg] == ItemMsgs(items[..k + 1], flags, sequence, pid);
  }

  /** A dump of links or addresses: what the host has, or the fallback, then one terminator. */
  method DumpReply(buf: array<nat>, max: nat, sequence: nat, pid: nat, items: seq<Item>, fallback: seq<Item>) returns (off: nat, ghost sent: seq<Item>)
    requires 2 * RESERVE <= max <= buf.Length && |fallback| <= 2
    requires forall i :: 0 <= i < |items| ==> Small(items[i])
    requires forall i :: 0 <= i < |fallback| ==> Small(fallback[i])
    modifies buf
    ensures off <= max && buf[..off] == Encode(ItemMsgs(sent, NLM_F_MULTI, sequence, pid) + [DoneMsg(sequence, pid)])
    ensures items != [] ==> sent != [] && sent <= items
    ensures items != [] && sent != items ==> off + RESERVE > max + DONE_SIZE
    ensures items == [] ==> sent == fallback
  {
    var built;
    off, built := BuildItems(buf, max, NLM_F_MULTI, sequence, pid, items);
    sent := items[..built];
    if built == 0 {
      off, built := BuildItems(buf, max, NLM_F_MULTI, sequence, pid, fallback);
      FallbackFits(fallback, built, off, max, sequence, pid);
      sent := fallback[..built];
    }
    off := BuildDone(buf, off, max, sequence, pid, ItemMsgs(sent, NLM_F_MULTI, sequence, pid));
  }

  /** Two small items fit twice the reserve. */
  lemma FallbackFits(items: seq<Item>, built: nat, off: nat, max: nat, sequence: nat, pid: nat)
    requires |items| <= 2 && (forall i :: 0 <= i < |items| ==> Small(items[i])) && 2 * RESERVE <= max
    requires built <= |items| && (items != [] ==> built > 0) && off == |Encode(ItemMsgs(items[..built], NLM_F_MULTI, sequence, pid))|
    requires built < |items| ==> off + RESERVE > max
    ensures built == |items|
  {
    if built == 1 {
      var msg := ItemMsg(items[0], NLM_F_MULTI, sequence, pid);
      BuiltWhole(items[0], 0, max, NLM_F_MULTI, sequence, pid);
      assert ItemMsgs(items[..1], NLM_F_MULTI, sequence, pid) == [] + [msg];
      EncodeSnoc([], msg);
    }
  }

  /** A receiver sees the items, in order, and exactly one terminator, at the end. */
  lemma DumpParses(sent: seq<Item>, sequence: nat, pid: nat)
    requires sequence < 0x1_0000_0000 && pid < 0x1_0000_0000
    requires forall i :: 0 <= i < |sent| ==> Small(sent[i]) && sent[i].kind < 0x1_0000 && sent[i].kind != NLMSG_DONE
    ensures var ms := ItemMsgs(sent, NLM_F_MULTI, sequence, pid) + [DoneMsg(sequence, pid)];
      && Parse(Encode(ms)) == Some(ms)
      && forall i :: 0 <= i < |ms| ==> (ms[i].kind == NLMSG_DONE <==> i == |ms| - 1)
  {
    ParseEncoded(ItemMsgs(sent, NLM_F_MULTI, sequence, pid) + [DoneMsg(sequence, pid)]);
  }

  // ---------------------------------------------------------------- links and addresses

  const IFF_UP: nat := 1
  const IFF_RUNNING: nat := 0x40
  const IFF_LOWER_UP: nat := 0x1_0000
  const ARPHRD_LOOPBACK: nat := 772

  datatype Link = Link(index: nat, kind: nat, flags: nat, mtu: nat, name: seq<nat>, hw: seq<nat>)

  /** Names fit IFNAMSIZ with their terminator, hardware addresses eight bytes. */
  ghost predicate IsLink(l: Link) {
    && |l.name| < IFNAMSIZ && 0 !in l.name && |l.hw| <= 8
    && l.index < 0x1_0000_0000 && l.kind < 0x1_0000
  }

  function LinkFlags(flags: nat): nat {
    BitOr(flags, if BitAnd(flags, IFF_RUNNING) != 0 then IFF_LOWER_UP else 0)
  }

  /** `struct ifinfomsg`. */
  function IfInfo(l: Link): (s: seq<nat>)
    ensures |s| == 16
  {
    [0, 0] + U16(l.kind) + U32(l.index) + U32(LinkFlags(l.flags)) + U32(0)
  }

  function Fill(byte: nat, n: nat): (s: seq<nat>)
    ensures |s| == n
  {
    seq(n, _ => byte)
  }

  function LinkAttrs(l: Link): seq<Attr> {
    [Attr(IFLA_IFNAME, l.name + [0]), Attr(IFLA_MTU, U32(l.mtu)), Attr(IFLA_TXQLEN, U32(1000)),
     Attr(IFLA_OPERSTATE, [if BitAnd(l.flags, IFF_UP) != 0 then 6 else 2])]
    + if |l.hw| > 0 then [Attr(IFLA_ADDRESS, l.hw), Attr(IFLA_BROADCAST, Fill(if l.kind == ARPHRD_LOOPBACK then 0 else 255, |l.hw|))] else []
  }

  function LinkItem(l: Link): Item {
    Item(RTM_NEWLINK, IfInfo(l), LinkAttrs(l))
  }

  lemma {:induction false} AttrsSize(attrs: seq<Attr>, each: nat)
    requires forall i :: 0 <= i < |attrs| ==> |AttrBytes(attrs[i])| <= each
    ensures |AttrsBytes(attrs)| <= At(each, |attrs|)
    decreases |attrs|
  {
    if attrs != [] {
      AttrsSize(attrs[..|attrs| - 1], each);
    }
  }

  lemma LinkIsSmall(l: Link)
    requires IsLink(l)
    ensures Small(LinkItem(l))
  {
    var attrs := LinkAttrs(l);
    forall i | 0 <= i < |attrs|
      ensures |AttrBytes(attrs[i])| <= 20
    {
    }
    AttrsSize(attrs, 20);
    AtIsProduct(20, |attrs|);
  }

  datatype Address = Address(family: nat, prefixLen: nat, scope: nat, index: nat, address: seq<nat>, tag: Option<seq<nat>>)

  ghost predicate IsAddress(a: Address) {
    |a.address| <= 16 && (a.tag.Some? ==> |a.tag.value| < IFNAMSIZ)
  }

  const IFA_F_PERMANENT: nat := 0x80
  const AF_INET: nat := 2

  /** `struct ifaddrmsg` and its attributes; only IPv4 addresses are labelled. */
  function AddressItem(a: Address): Item {
    Item(RTM_NEWADDR, [a.family % 256, a.prefixLen % 256, IFA_F_PERMANENT, a.scope % 256] + U32(a.index),
         [Attr(IFA_ADDRESS, a.address), Attr(IFA_LOCAL, a.address)]
         + if a.family == AF_INET && a.tag.Some? then [Attr(IFA_LABEL, a.tag.value + [0])] else [])
  }

  lemma AddressIsSmall(a: Address)
    requires IsAddress(a)
    ensures Small(AddressItem(a))
  {
    var attrs := AddressItem(a).attrs;
    forall i | 0 <= i < |attrs|
      ensures |AttrBytes(attrs[i])| <= 20
    {
    }
    AttrsSize(attrs, 20);
    AtIsProduct(20, |attrs|);
  }

  // ---------------------------------------------------------------- each interface once

  const SEEN_MAX: nat := 64

  /** The names of the entries, each once, in the order they first appear. */
  function FirstNames(entries: seq<Link>): seq<seq<nat>> {
    if entries == [] then []
    else
      var before, name := FirstNames(entries[..|entries| - 1]), entries[|entries| - 1].name;
      if name in before then before else before + [name]
  }

  /** The names that are remembered. */
  function Remembered(entries: seq<Link>): seq<seq<nat>> {
    var names := FirstNames(entries);
    if |names| <= SEEN_MAX then names else names[..SEEN_MAX]
  }

  /** Entry `k` is listed: its name is not remembered from the entries before it. */
  predicate Listed(entries: seq<Link>, k: nat)
    requires k < |entries|
  {
    entries[k].name !in Remembered(entries[..k])
  }

  function ListedLinks(entries: seq<Link>): seq<Link> {
    if entries == [] then []
    else
      var n := |entries| - 1;
      ListedLinks(entries[..n]) + if Listed(entries, n) then [entries[n]] else []
  }

  /** The walk over the host's entries: an interface already seen is skipped, as long as the list of names seen has
      room. */
  method OncePerName(entries: seq<Link>) returns (links: seq<Link>)
    ensures links == ListedLinks(entries)
  {
    links := [];
    var seen: seq<seq<nat>> := [];
    for k := 0 to |entries|
      invariant seen == Remembered(entries[..k]) && links == ListedLinks(entries[..k])
    {
      ListedNext(entries, k);
      var name := entries[k].name;
      if name in seen {
        continue;
      }
      links := links + [entries[k]];
      if |seen| < SEEN_MAX {
        seen := seen + [name];
      }
    }
    assert entries[..|entries|] == entries;
  }

  lemma ListedNext(entries: seq<Link>, k: nat)
    requires k < |entries|
    ensures var seen, name := Remembered(entries[..k]), entries[k].name;
      && Remembered(entries[..k + 1]) == (if name in seen || |seen| >= SEEN_MAX then seen else seen + [name])
      && ListedLinks(entries[..k + 1]) == ListedLinks(entries[..k]) + if name in seen then [] else [entries[k]]
  {
    assert entries[..k + 1][..k] == entries[..k];
  }

  /** Names keep their place in the list of first appearances. */
  lemma {:induction false} FirstNamesGrow(entries: seq<Link>, k: nat)
    requires k <= |entries|
    ensures FirstNames(entries[..k]) <= FirstNames(entries)
    decreases |entries|
  {
    if k < |entries| {
      FirstNamesGrow(entries[..|entries| - 1], k);
      assert entries[..|entries| - 1][..k] == entries[..k];
    } else {
      assert entries[..k] == entries;
    }
  }

  lemma {:induction false} NameAppears(entries: seq<Link>, i: nat)
    requires i < |entries|
    ensures entries[i].name in FirstNames(entries)
    decreases |entries|
  {
    var n := |entries| - 1;
    if i < n {
      NameAppears(entries[..n], i);
    }
  }

  lemma {:induction false} NamesDiffer(entries: seq<Link>, a: nat, b: nat)
    requires a < b < |FirstNames(entries)|
    ensures FirstNames(entries)[a] != FirstNames(entries)[b]
    decreases |entries|
  {
    var n := |entries| - 1;
    var before := FirstNames(entries[..n]);
    if b < |before| {
      NamesDiffer(entries[..n], a, b);
    }
  }

  /** A name is listed at two entries exactly when it is not among the first 64 names to appear. */
  lemma ListedTwiceExactly(entries: seq<Link>, i: nat, j: nat)
    requires i < j < |entries| && entries[i].name == entries[j].name
    ensures Listed(entries, i) && Listed(entries, j) <==> entries[i].name !in Remembered(entries)
  {
    var name := entries[j].name;
    FirstNamesGrow(entries, i);
    FirstNamesGrow(entries, j);
    if name in Remembered(entries) {
      assert entries[..j][i] == entries[i];
      NameAppears(entries[..j], i);
      var a :| 0 <= a < |Remembered(entries)| && Remembered(entries)[a] == name;
      var b :| 0 <= b < |FirstNames(entries[..j])| && FirstNames(entries[..j])[b] == name;
      assert FirstNames(entries)[a] == FirstNames(entries)[b];
      if a < b {
        NamesDiffer(entries, a, b);
      } else if b < a {
        NamesDiffer(entries, b, a);
      }
      assert Remembered(entries[..j])[a] == name;
    } else {
      NotRemembered(entries, i);
      NotRemembered(entries, j);
    }
  }

  lemma NotRemembered(entries: seq<Link>, k: nat)
    requires k < |entries| && entries[k].name !in Remembered(entries)
    ensures Listed(entries, k)
  {
    FirstNamesGrow(entries, k);
    assert Remembered(entries[..k]) <= Remembered(entries);
  }

  /** With at most 64 names, every interface is listed, once. */
  lemma EachOnce(entries: seq<Link>, i: nat, j: nat)
    requires i < j < |entries| && entries[i].name == entries[j].name && |FirstNames(entries)| <= SEEN_MAX
    ensures !(Listed(entries, i) && Listed(entries, j))
  {
    NameAppears(entries, i);
    ListedTwiceExactly(entries, i, j);
  }

  /** And no interface is missed, however many there are. */
  lemma {:induction false} NoneMissed(entries: seq<Link>, i: nat) returns (k: nat)
    requires i < |entries|
    ensures k <= i && entries[k].name == entries[i].name && Listed(entries, k)
    decreases i
  {
    if Listed(entries, i) {
      k := i;
    } else {
      var j := FirstAppearance(entries[..i], entries[i].name);
      k := NoneMissed(entries, j);
    }
  }

  lemma {:induction false} FirstAppearance(entries: seq<Link>, name: seq<nat>) returns (j: nat)
    requires name in FirstNames(entries)
    ensures j < |entries| && entries[j].name == name
    decreases |entries|
  {
    var n := |entries| - 1;
    if name in FirstNames(entries[..n]) {
      j := FirstAppearance(entries[..n], name);
    } else {
      j := n;
    }
  }

  // ---------------------------------------------------------------- relayed routes

  const SPARE: nat := 64
  const MAX_ROUNDS: nat := 64

  function Readdressed(m: Msg, sequence: nat, pid: nat): Msg {
    m.(sequence := sequence, pid := pid)
  }

  function Answering(msgs: seq<Msg>, sequence: nat, pid: nat): (r: seq<Msg>)
    ensures |r| == |msgs| && forall i :: 0 <= i < |r| ==> r[i] == Readdressed(msgs[i], sequence, pid)
  {
    seq(|msgs|, i requires 0 <= i < |msgs| => Readdressed(msgs[i], sequence, pid))
  }

  predicate EndsDump(msgs: seq<Msg>, n: nat)
    requires n <= |msgs|
  {
    n > 0 && msgs[n - 1].kind == NLMSG_DONE
  }

  /** Of these messages the first `n` are relayed: up to the first terminator, or up to one that does not fit. */
  ghost predicate Cut(msgs: seq<Msg>, n: nat, off: nat, max: nat) {
    && n <= |msgs| && (forall i :: 0 <= i < n - 1 ==> msgs[i].kind != NLMSG_DONE)
    && (n < |msgs| && !EndsDump(msgs, n) ==> off + |MsgBytes(msgs[n])| + SPARE > max)
  }

  /** One message, if it fits. */
  method RelayMessage(buf: array<nat>, off: nat, max: nat, m: Msg, ghost ms: seq<Msg>) returns (off': nat, fits: bool)
    requires off + SPARE <= max <= buf.Length && buf[..off] == Encode(ms)
    modifies buf
    ensures off' + SPARE <= max && fits == (off + |MsgBytes(m)| + SPARE <= max)
    ensures buf[..off'] == Encode(if fits then ms + [m] else ms) && (!fits ==> off' == off)
  {
    var bytes := MsgBytes(m);
    if off + |bytes| + SPARE > max {
      return off, false;
    }
    EncodeSnoc(ms, m);
    Append(buf, off, bytes);
    return off + |bytes|, true;
  }

  /** The messages of one datagram, as far as they fit. */
  method RelayDatagram(buf: array<nat>, start: nat, max: nat, sequence: nat, pid: nat, datagram: seq<Msg>, ghost before: seq<Msg>)
    returns (off: nat, stop: bool, sawDone: bool, ghost n: nat)
    requires start + SPARE <= max <= buf.Length && buf[..start] == Encode(before)
    modifies buf
    ensures off + SPARE <= max && Cut(datagram, n, off, max)
    ensures buf[..off] == Encode(before + Answering(datagram[..n], sequence, pid))
    ensures sawDone == EndsDump(datagram, n) && stop == (sawDone || n < |datagram|)
  {
    off, stop, sawDone, n := start, false, false, 0;
    ghost var ms := before;
    assert before + Answering([], sequence, pid) == before;
    for i := 0 to |datagram|
      invariant off + SPARE <= max && n == i && !sawDone && !stop
      invariant buf[..off] == Encode(ms) && RelayedTo(before, datagram, i, sequence, pid, ms)
    {
      var m := Readdressed(datagram[i], sequence, pid);
      var fits;
      SameSize(datagram[i], sequence, pid);
      off, fits := RelayMessage(buf, off, max, m, ms);
      if !fits {
        stop := true;
        return;
      }
      AnsweringNext(before, datagram, i, sequence, pid);
      ms, n := ms + [m], i + 1;
      if m.kind == NLMSG_DONE {
        stop, sawDone := true, true;
        return;
      }
    }
  }

  /** The first `n` messages of the datagram follow `before`, and none is a terminator. */
  ghost predicate RelayedTo(before: seq<Msg>, datagram: seq<Msg>, n: nat, sequence: nat, pid: nat, ms: seq<Msg>) {
    && n <= |datagram| && ms == before + Answering(datagram[..n], sequence, pid)
    && forall k :: 0 <= k < n ==> datagram[k].kind != NLMSG_DONE
  }

  lemma AnsweringNext(before: seq<Msg>, datagram: seq<Msg>, i: nat, sequence: nat, pid: nat)
    requires i < |datagram|
    ensures before + Answering(datagram[..i + 1], sequence, pid) ==
      before + Answering(datagram[..i], sequence, pid) + [Readdressed(datagram[i], sequence, pid)]
  {
  }

  lemma SameSize(m: Msg, sequence: nat, pid: nat)
    ensures |MsgBytes(Readdressed(m, sequence, pid))| == |MsgBytes(m)|
  {
  }

  /** All messages of the datagrams that are read. */
  ghost function Flat(datagrams: seq<seq<Msg>>): seq<Msg> {
    if datagrams == [] then [] else Flat(datagrams[..|datagrams| - 1]) + datagrams[|datagrams| - 1]
  }

  lemma {:induction false} FlatPrefix(datagrams: seq<seq<Msg>>, round: nat, n: nat)
    requires round < |datagrams| && n <= |datagrams[round]|
    ensures Flat(datagrams[..round]) + datagrams[round][..n] <= Flat(datagrams)
    decreases |datagrams|
  {
    var k := |datagrams| - 1;
    if round < k {
      FlatPrefix(datagrams[..k], round, n);
      assert datagrams[..k][..round] == datagrams[..round];
    }
  }

  /** Datagrams that were relayed whole, then one up to its cut. */
  lemma CutInside(datagrams: seq<seq<Msg>>, round: nat, n: nat, off: nat, max: nat)
    requires round < |datagrams| && Cut(datagrams[round], n, off, max)
    requires forall i :: 0 <= i < |Flat(datagrams[..round])| ==> Flat(datagrams[..round])[i].kind != NLMSG_DONE
    requires n < |datagrams[round]| || EndsDump(datagrams[round], n)
    ensures Cut(Flat(datagrams), |Flat(datagrams[..round])| + n, off, max)
    ensures EndsDump(Flat(datagrams), |Flat(datagrams[..round])| + n) <==> EndsDump(datagrams[round], n)
  {
    var before, d := Flat(datagrams[..round]), datagrams[round];
    FlatPrefix(datagrams, round, n);
    if n < |d| {
      FlatPrefix(datagrams, round, n + 1);
    }
    CutAppended(before, d, Flat(datagrams), n, off, max);
  }

  lemma CutAppended(before: seq<Msg>, d: seq<Msg>, all: seq<Msg>, n: nat, off: nat, max: nat)
    requires Cut(d, n, off, max) && (forall i :: 0 <= i < |before| ==> before[i].kind != NLMSG_DONE)
    requires before + d[..n] <= all && (n < |d| ==> before + d[..n + 1] <= all) && (n < |d| || EndsDump(d, n))
    ensures Cut(all, |before| + n, off, max)
    ensures EndsDump(all, |before| + n) <==> EndsDump(d, n)
  {
    forall i | 0 <= i < |before| + n
      ensures all[i] == if i < |before| then before[i] else d[i - |before|]
    {
      assert all[i] == (before + d[..n])[i];
    }
    if n < |d| {
      assert all[|before| + n] == (before + d[..n + 1])[|before| + n] == d[n];
    }
  }

  lemma FlatWhole(datagrams: seq<seq<Msg>>, round: nat)
    requires round < |datagrams|
    ensures Flat(datagrams[..round + 1]) == Flat(datagrams[..round]) + datagrams[round]
    ensures |Flat(datagrams[..round])| <= |Flat(datagrams)| && Flat(datagrams)[..|Flat(datagrams[..round])|] == Flat(datagrams[..round])
  {
    assert datagrams[..round + 1][..round] == datagrams[..round];
    FlatPrefix(datagrams, round, |datagrams[round]|);
    assert datagrams[round][..|datagrams[round]|] == datagrams[round];
  }

  /** What the tracee is answered when `n` of these messages were relayed: a terminator in any case. */
  function Terminated(msgs: seq<Msg>, n: nat, sequence: nat, pid: nat): seq<Msg>
    requires n <= |msgs|
  {
    Answering(msgs[..n], sequence, pid) + if EndsDump(msgs, n) then [] else [DoneMsg(sequence, pid)]
  }

  /** `relay_route_dump`, given what the host answers, followed by the terminator alone if nothing was relayed. */
  method RouteReply(buf: array<nat>, max: nat, sequence: nat, pid: nat, datagrams: seq<seq<Msg>>) returns (off: nat, ghost n: nat)
    requires SPARE <= max <= buf.Length
    modifies buf
    ensures var msgs := Flat(Read(datagrams));
      && n <= |msgs| && Cut(msgs, n, |Encode(Answering(msgs[..n], sequence, pid))|, max)
      && off <= max && buf[..off] == Encode(Terminated(msgs, n, sequence, pid))
  {
    var sawDone;
    off, sawDone, n := RelayRoutes(buf, max, sequence, pid, Read(datagrams));
    ghost var ms := Answering(Flat(Read(datagrams))[..n], sequence, pid);
    if !sawDone {
      off := BuildDone(buf, off, max, sequence, pid, ms);
    } else {
      assert ms + [] == ms;
    }
  }

  /** At most so many datagrams are read. */
  function Read(datagrams: seq<seq<Msg>>): seq<seq<Msg>> {
    if |datagrams| > MAX_ROUNDS then datagrams[..MAX_ROUNDS] else datagrams
  }

  /** The rounds of the relay. */
  method RelayRoutes(buf: array<nat>, max: nat, sequence: nat, pid: nat, datagrams: seq<seq<Msg>>)
    returns (off: nat, sawDone: bool, ghost n: nat)
    requires SPARE <= max <= buf.Length
    modifies buf
    ensures off + SPARE <= max && n <= |Flat(datagrams)|
    ensures buf[..off] == Encode(Answering(Flat(datagrams)[..n], sequence, pid))
    ensures Cut(Flat(datagrams), n, off, max) && sawDone == EndsDump(Flat(datagrams), n)
  {
    off, sawDone, n := 0, false, 0;
    var round, stop := 0, false;
    while !stop && round < |datagrams|
      invariant round <= |datagrams| && off + SPARE <= max && n <= |Flat(datagrams)|
      invariant buf[..off] == Encode(Answering(Flat(datagrams)[..n], sequence, pid))
      invariant RoundState(datagrams, round, n, off, max, stop, sawDone)
      decreases |datagrams| - round, !stop
    {
      off, stop, sawDone, n := Round(buf, off, max, sequence, pid, datagrams, round);
      round := round + 1;
    }
    assert datagrams[..|datagrams|] == datagrams;
  }

  /** No terminator in the first rounds. */
  ghost predicate Passed(datagrams: seq<seq<Msg>>, round: nat)
    requires round <= |datagrams|
  {
    forall i :: 0 <= i < |Flat(datagrams[..round])| ==> Flat(datagrams[..round])[i].kind != NLMSG_DONE
  }

  method Round(buf: array<nat>, start: nat, max: nat, sequence: nat, pid: nat, datagrams: seq<seq<Msg>>, round: nat)
    returns (off: nat, stop: bool, sawDone: bool, ghost n: nat)
    requires round < |datagrams| && start + SPARE <= max <= buf.Length && Passed(datagrams, round)
    requires |Flat(datagrams[..round])| <= |Flat(datagrams)|
    requires buf[..start] == Encode(Answering(Flat(datagrams)[..|Flat(datagrams[..round])|], sequence, pid))
    modifies buf
    ensures off + SPARE <= max && n <= |Flat(datagrams)|
    ensures buf[..off] == Encode(Answering(Flat(datagrams)[..n], sequence, pid))
    ensures RoundState(datagrams, round + 1, n, off, max, stop, sawDone)
  {
    ghost var k;
    FlatWhole(datagrams, round);
    ghost var done := Flat(datagrams[..round]);
    off, stop, sawDone, k := RelayDatagram(buf, start, max, sequence, pid, datagrams[round], Answering(done, sequence, pid));
    n := |done| + k;
    Joined(datagrams, round, k, sequence, pid);
    RoundEnds(datagrams, round, k, n, off, max, stop, sawDone);
  }

  /** After so many rounds: all of their messages were relayed and none is a terminator, or the relay has stopped. */
  ghost predicate RoundState(datagrams: seq<seq<Msg>>, round: nat, n: nat, off: nat, max: nat, stop: bool, sawDone: bool)
    requires round <= |datagrams|
  {
    && n <= |Flat(datagrams)|
    && (!stop ==> Passed(datagrams, round) && n == |Flat(datagrams[..round])| && !sawDone)
    && (stop ==> Cut(Flat(datagrams), n, off, max) && sawDone == EndsDump(Flat(datagrams), n))
  }

  lemma RoundEnds(datagrams: seq<seq<Msg>>, round: nat, k: nat, n: nat, off: nat, max: nat, stop: bool, sawDone: bool)
    requires round < |datagrams| && Passed(datagrams, round) && Cut(datagrams[round], k, off, max)
    requires n == |Flat(datagrams[..round])| + k
    requires sawDone == EndsDump(datagrams[round], k) && stop == (sawDone || k < |datagrams[round]|)
    ensures RoundState(datagrams, round + 1, n, off, max, stop, sawDone)
  {
    FlatWhole(datagrams, round);
    FlatPrefix(datagrams, round, k);
    if stop {
      CutInside(datagrams, round, k, off, max);
    }
  }

  lemma Joined(datagrams: seq<seq<Msg>>, round: nat, k: nat, sequence: nat, pid: nat)
    requires round < |datagrams| && k <= |datagrams[round]|
    ensures var done := Flat(datagrams[..round]);
      && |done| + k <= |Flat(datagrams)|
      && Answering(done, sequence, pid) + Answering(datagrams[round][..k], sequence, pid) == Answering(Flat(datagrams)[..|done| + k], sequence, pid)
  {
    var done := Flat(datagrams[..round]);
    FlatPrefix(datagrams, round, k);
    assert Flat(datagrams)[..|done| + k] == done + datagrams[round][..k];
  }

  /** The tracee finds the relayed messages and one terminator, at the end, all addressed to it. */
  lemma RouteParses(msgs: seq<Msg>, n: nat, off: nat, max: nat, sequence: nat, pid: nat)
    requires Cut(msgs, n, off, max) && sequence < 0x1_0000_0000 && pid < 0x1_0000_0000 && forall i :: 0 <= i < |msgs| ==> Fits(msgs[i])
    ensures var ms := Terminated(msgs, n, sequence, pid);
      && Parse(Encode(ms)) == Some(ms)
      && forall i :: 0 <= i < |ms| ==> ms[i].sequence == sequence && ms[i].pid == pid && (ms[i].kind == NLMSG_DONE <==> i == |ms| - 1)
  {
    var ms := Terminated(msgs, n, sequence, pid);
    forall i | 0 <= i < |ms|
      ensures Fits(ms[i]) && ms[i].sequence == sequence && ms[i].pid == pid && (ms[i].kind == NLMSG_DONE <==> i == |ms| - 1)
    {
      if i < n {
        assert ms[i] == Readdressed(msgs[i], sequence, pid) && Fits(msgs[i]);
      }
    }
    ParseEncoded(ms);
  }

  // ---------------------------------------------------------------- requests

  /** A C string: up to the first zero byte. */
  function Text(s: seq<nat>): seq<nat> {
    if s == [] || s[0] == 0 then [] else [s[0]] + Text(s[1..])
  }

  /** What is copied of a name into IFNAMSIZ bytes. */
  function CutName(data: seq<nat>): seq<nat> {
    Text(if |data| < IFNAMSIZ then data else data[..IFNAMSIZ - 1])
  }

  /** The name the attributes give: the last one counts. */
  function NameOf(attrs: seq<Attr>): seq<nat> {
    if attrs == [] then []
    else if attrs[|attrs| - 1].kind == IFLA_IFNAME then CutName(attrs[|attrs| - 1].data)
    else NameOf(attrs[..|attrs| - 1])
  }

  /** `nl_request_link_target`. */
  method LinkTarget(req: seq<nat>) returns (index: nat, name: seq<nat>)
    ensures |req| < 32 ==> index == 0 && name == []
    ensures |req| >= 32 ==> index == Value(req[20..24]) && name == NameOf(Walk(req, 32))
  {
    name := [];
    if |req| < NLMSG_HDRLEN + 16 {
      return 0, [];
    }
    index := Value(req[20..24]);
    var off := 32;
    ghost var attrs, whole := [], Walk(req, 32);
    var more := true;
    while more
      invariant off >= 32 && name == NameOf(attrs)
      invariant more ==> attrs + Walk(req, off) == whole
      invariant !more ==> attrs == whole
      decreases |req| - off, more
    {
      more, off, name, attrs := ReadAttr(req, off, name, attrs, whole);
    }
  }

  /** One attribute, if there is one more. */
  method ReadAttr(req: seq<nat>, off: nat, name: seq<nat>, ghost attrs: seq<Attr>, ghost whole: seq<Attr>)
    returns (more: bool, off': nat, name': seq<nat>, ghost attrs': seq<Attr>)
    requires name == NameOf(attrs) && attrs + Walk(req, off) == whole
    ensures name' == NameOf(attrs') && (more ==> off < off' && off + 4 <= |req|) && (!more ==> off' == off)
    ensures if more then attrs' + Walk(req, off') == whole else attrs' == whole
  {
    more, off', name', attrs' := false, off, name, attrs;
    if off + 4 > |req| {
      assert attrs + [] == attrs;
      return;
    }
    var len := Value(req[off..off + 2]);
    if len < 4 || off + len > |req| {
      assert attrs + [] == attrs;
      return;
    }
    var a := Attr(Value(req[off + 2..off + 4]), req[off + 4..off + len]);
    if a.kind == IFLA_IFNAME {
      name' := CutName(a.data);
    }
    NextAttr(req, off, len, a, attrs, whole);
    more, off', attrs' := true, off + Align(len), attrs + [a];
  }

  lemma NextAttr(req: seq<nat>, off: nat, len: nat, a: Attr, attrs: seq<Attr>, whole: seq<Attr>)
    requires off + 4 <= |req| && len == Value(req[off..off + 2]) && 4 <= len && off + len <= |req|
    requires a == Attr(Value(req[off + 2..off + 4]), req[off + 4..off + len]) && attrs + Walk(req, off) == whole
    ensures (attrs + [a]) + Walk(req, off + Align(len)) == whole
    ensures NameOf(attrs + [a]) == if a.kind == IFLA_IFNAME then CutName(a.data) else NameOf(attrs)
  {
    assert (attrs + [a])[..|attrs|] == attrs;
    assert attrs + ([a] + Walk(req, off + Align(len))) == (attrs + [a]) + Walk(req, off + Align(len));
  }

  lemma {:induction false} TextTerminated(s: seq<nat>, rest: seq<nat>)
    requires 0 !in s
    ensures Text(s + [0] + rest) == s && Text(s) == s
    decreases |s|
  {
    if s != [] {
      assert (s + [0] + rest)[1..] == s[1..] + [0] + rest;
      TextTerminated(s[1..], rest);
      assert s == [s[0]] + s[1..];
    }
  }

  lemma NameSurvives(name: seq<nat>)
    requires |name| < IFNAMSIZ && 0 !in name
    ensures CutName(name + [0]) == name
  {
    TextTerminated(name, []);
    if |name| + 1 < IFNAMSIZ {
      assert name + [0] + [] == name + [0];
    } else {
      assert (name + [0])[..IFNAMSIZ - 1] == name;
    }
  }

  /** The name of a link message is found, whatever attributes follow it. */
  lemma LinkName(l: Link)
    requires IsLink(l)
    ensures NameOf(LinkAttrs(l)) == l.name
  {
    var attrs := LinkAttrs(l);
    NameSurvives(l.name);
    assert NameOf(attrs[..1]) == l.name by {
      assert attrs[..1] == [attrs[0]];
    }
    NotNames(attrs, 1, |attrs|);
    assert attrs[..|attrs|] == attrs;
  }

  lemma {:induction false} NotNames(attrs: seq<Attr>, from: nat, end: nat)
    requires from <= end <= |attrs| && forall i :: from <= i < end ==> attrs[i].kind != IFLA_IFNAME
    ensures NameOf(attrs[..end]) == NameOf(attrs[..from])
    decreases end
  {
    if from < end {
      assert attrs[..end][..end - 1] == attrs[..end - 1];
      NotNames(attrs, from, end - 1);
    }
  }

  lemma LinkAttrsFit(l: Link)
    requires IsLink(l)
    ensures forall i :: 0 <= i < |LinkAttrs(l)| ==> AttrFits(LinkAttrs(l)[i])
  {
  }

  lemma IndexField(header: seq<nat>, l: Link, rest: seq<nat>)
    requires |header| == NLMSG_HDRLEN && IsLink(l)
    ensures var req := header + IfInfo(l) + rest;
      |req| >= 32 && req[20..24] == U32(l.index)
  {
    assert (header + IfInfo(l) + rest)[20..24] == IfInfo(l)[4..8];
  }

  lemma WalkLink(head: seq<nat>, l: Link)
    requires |head| == 32 && IsLink(l)
    ensures NameOf(Walk(head + AttrsBytes(LinkAttrs(l)), 32)) == l.name
  {
    LinkAttrsFit(l);
    WalkEncoded(head, LinkAttrs(l), 32);
    LinkName(l);
  }

  lemma LinkBytes(l: Link, flags: nat, sequence: nat, pid: nat)
    requires IsLink(l)
    ensures var m := ItemMsg(LinkItem(l), flags, sequence, pid);
      MsgBytes(m) == HeaderBytes(m) + IfInfo(l) + AttrsBytes(LinkAttrs(l))
  {
    var m, attrs := ItemMsg(LinkItem(l), flags, sequence, pid), AttrsBytes(LinkAttrs(l));
    SumAligned(16, |attrs|);
    NoPadding(m);
    Associates(HeaderBytes(m), IfInfo(l), attrs);
  }

  /** The decoder applied to a link message gives back its interface. */
  lemma LinkRoundTrip(l: Link, flags: nat, sequence: nat, pid: nat)
    requires IsLink(l)
    ensures var req := MsgBytes(ItemMsg(LinkItem(l), flags, sequence, pid));
      |req| >= 32 && Value(req[20..24]) == l.index && NameOf(Walk(req, 32)) == l.name
  {
    var header := HeaderBytes(ItemMsg(LinkItem(l), flags, sequence, pid));
    LinkBytes(l, flags, sequence, pid);
    IndexField(header, l, AttrsBytes(LinkAttrs(l)));
    Value32(l.index);
    WalkLink(header + IfInfo(l), l);
  }

  // ---------------------------------------------------------------- what a receiver reads in an address message

  /** The data of the first attribute of that kind. */
  ghost function FirstOf(attrs: seq<Attr>, kind: nat): Option<seq<nat>> {
    if attrs == [] then None else if attrs[0].kind == kind then Some(attrs[0].data) else FirstOf(attrs[1..], kind)
  }

  /** A receiver also reads back type, flags, size and hardware address of a link, and whether it is up. */
  lemma LinkDecoded(l: Link, flags: nat, sequence: nat, pid: nat)
    requires IsLink(l) && l.mtu < 0x1_0000_0000 && l.flags < 0x1_0000_0000
    ensures var s := MsgBytes(ItemMsg(LinkItem(l), flags, sequence, pid));
      && |s| >= 32 && Value(s[4..6]) == 16 && Value(s[18..20]) == l.kind && LinkRead(l, Walk(s, 32))
      && Value(s[24..28]) == if BitAnd(l.flags, 0x40) != 0 && BitAnd(l.flags, 0x1_0000) == 0 then l.flags + 0x1_0000 else l.flags
  {
    var m := ItemMsg(LinkItem(l), flags, sequence, pid);
    var header, attrs := HeaderBytes(m), AttrsBytes(LinkAttrs(l));
    LinkBytes(l, flags, sequence, pid);
    assert (header + IfInfo(l) + attrs)[18..20] == U16(l.kind) && (header + IfInfo(l) + attrs)[4..6] == U16(16);
    assert (header + IfInfo(l) + attrs)[24..28] == U32(LinkFlags(l.flags));
    FlagsRead(l.flags);
    Value32(LinkFlags(l.flags));
    Value16(l.kind);
    Value16(16);
    LinkAttrsFit(l);
    WalkEncoded(header + IfInfo(l), LinkAttrs(l), 32);
    LinkAttrsRead(l);
  }

  /** An interface that runs is also reported as having a carrier. */
  lemma FlagsRead(flags: nat)
    requires flags < 0x1_0000_0000
    ensures LinkFlags(flags) < 0x1_0000_0000
    ensures LinkFlags(flags) == if BitAnd(flags, 0x40) != 0 && BitAnd(flags, 0x1_0000) == 0 then flags + 0x1_0000 else flags
  {
    WordsArePowers();
    OrPower(flags, 0x1_0000);
    OrBound(flags, 0x1_0000, 0x1_0000_0000);
  }

  ghost predicate LinkRead(l: Link, attrs: seq<Attr>) {
    && FirstOf(attrs, 3) == Some(l.name + [0]) && FirstOf(attrs, 4).Some? && Value(FirstOf(attrs, 4).value) == l.mtu
    && FirstOf(attrs, 1) == (if |l.hw| > 0 then Some(l.hw) else None)
    && FirstOf(attrs, 16) == Some(if l.flags % 2 == 1 then [6] else [2])
  }

  lemma LinkAttrsRead(l: Link)
    requires IsLink(l) && l.mtu < 0x1_0000_0000
    ensures LinkRead(l, LinkAttrs(l))
  {
    var attrs := LinkAttrs(l);
    Value32(l.mtu);
    LowBit(l.flags);
    forall k: nat | k <= 4
      ensures FirstOf(attrs[k..], 16) == if k < 4 then Some(attrs[3].data) else None
      ensures FirstOf(attrs[k..], 1) == if |l.hw| > 0 then Some(l.hw) else None
    {
      LinkTail(l, attrs, k);
    }
    assert attrs[0..] == attrs && attrs[1..][0] == attrs[1];
  }

  lemma {:induction false} LinkTail(l: Link, attrs: seq<Attr>, k: nat)
    requires attrs == LinkAttrs(l) && k <= 4
    ensures FirstOf(attrs[k..], 16) == if k < 4 then Some(attrs[3].data) else None
    ensures FirstOf(attrs[k..], 1) == if |l.hw| > 0 then Some(l.hw) else None
    decreases 4 - k
  {
    if k < 4 {
      LinkTail(l, attrs, k + 1);
      assert attrs[k..][0] == attrs[k] && attrs[k..][1..] == attrs[k + 1..];
    } else if |l.hw| > 0 {
      assert attrs[4..] == [attrs[4], attrs[5]] && attrs[4..][1..] == [attrs[5]] && [attrs[5]][1..] == [];
      assert FirstOf([attrs[5]], 16) == None;
    } else {
      assert attrs[4..] == [];
    }
  }

  lemma LowBit(x: nat)
    ensures BitAnd(x, 1) != 0 <==> x % 2 == 1
  {
    assert BitAnd(x / 2, 0) == 0;
  }

  ghost predicate FieldsFit(a: Address) {
    a.family < 256 && a.prefixLen < 256 && a.scope < 256 && a.index < 0x1_0000_0000
  }

  lemma AddressAttrs(a: Address)
    requires IsAddress(a)
    ensures forall i :: 0 <= i < |AddressItem(a).attrs| ==> AttrFits(AddressItem(a).attrs[i])
    ensures FirstOf(AddressItem(a).attrs, 1) == Some(a.address) && FirstOf(AddressItem(a).attrs, 2) == Some(a.address)
    ensures FirstOf(AddressItem(a).attrs, 3) == if a.family == 2 && a.tag.Some? then Some(a.tag.value + [0]) else None
  {
    var attrs := AddressItem(a).attrs;
    assert attrs[1..][0] == attrs[1];
    if |attrs| == 3 {
      assert attrs[1..][1..][0] == attrs[2] && FirstOf(attrs[1..][1..], 3) == Some(attrs[2].data);
      assert FirstOf(attrs[1..], 3) == Some(attrs[2].data);
    } else {
      assert attrs[1..][1..] == [] && FirstOf(attrs[1..][1..], 3) == None;
      assert FirstOf(attrs[1..], 3) == None;
    }
  }

  lemma FixedFields(header: seq<nat>, fixed: seq<nat>, rest: seq<nat>)
    requires |header| == 16 && |fixed| == 8
    ensures var s := header + fixed + rest;
      s[16..20] == fixed[..4] && s[20..24] == fixed[4..8] && s[4..6] == header[4..6]
  {
  }

  /** A receiver reads back family, prefix length, scope, interface, address and, for IPv4, the tag. */
  lemma AddressRoundTrip(a: Address, flags: nat, sequence: nat, pid: nat)
    requires IsAddress(a) && FieldsFit(a)
    ensures var s := MsgBytes(ItemMsg(AddressItem(a), flags, sequence, pid));
      && |s| >= 24 && Value(s[4..6]) == 20 && s[16] == a.family && s[17] == a.prefixLen && s[19] == a.scope
      && Value(s[20..24]) == a.index && AddressRead(a, Walk(s, 24))
  {
    var item := AddressItem(a);
    var m := ItemMsg(item, flags, sequence, pid);
    var header, attrs := HeaderBytes(m), AttrsBytes(item.attrs);
    AddressBytes(a, flags, sequence, pid);
    FixedFields(header, item.fixed, attrs);
    AddressHead(a, item.fixed);
    Value32(a.index);
    Value16(20);
    AddressAttrs(a);
    WalkEncoded(header + item.fixed, item.attrs, 24);
    var s := MsgBytes(m);
    assert s[16..20][0] == s[16] && s[16..20][1] == s[17] && s[16..20][3] == s[19];
  }

  ghost predicate AddressRead(a: Address, attrs: seq<Attr>) {
    && FirstOf(attrs, 1) == Some(a.address) && FirstOf(attrs, 2) == Some(a.address)
    && FirstOf(attrs, 3) == if a.family == 2 && a.tag.Some? then Some(a.tag.value + [0]) else None
  }

  lemma AddressHead(a: Address, fixed: seq<nat>)
    requires FieldsFit(a) && fixed == AddressItem(a).fixed
    ensures |fixed| == 8 && fixed[0] == a.family && fixed[1] == a.prefixLen && fixed[3] == a.scope && fixed[4..8] == U32(a.index)
  {
    SmallMod(a.family, 256);
    SmallMod(a.prefixLen, 256);
    SmallMod(a.scope, 256);
  }

  lemma AddressBytes(a: Address, flags: nat, sequence: nat, pid: nat)
    requires IsAddress(a)
    ensures var m := ItemMsg(AddressItem(a), flags, sequence, pid);
      && MsgBytes(m) == HeaderBytes(m) + AddressItem(a).fixed + AttrsBytes(AddressItem(a).attrs)
      && HeaderBytes(m)[4..6] == U16(20)
  {
    var m, attrs := ItemMsg(AddressItem(a), flags, sequence, pid), AttrsBytes(AddressItem(a).attrs);
    SumAligned(8, |attrs|);
    NoPadding(m);
    Associates(HeaderBytes(m), AddressItem(a).fixed, attrs);
  }
}
