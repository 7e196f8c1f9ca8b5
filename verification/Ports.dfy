/**
 Published ports and their drift check (src/daemon/docker.rs): what `create`
 hands the engine, what `container_applied` reads back, and the desired keys
 the two are compared through.
 */
module Ports {
  import opened Common
  import opened Sorting
  import Decimal

  datatype Protocol = Tcp | Udp | Both

  function Transports(p: Protocol): seq<string> {
    match p
    case Tcp => ["tcp"]
    case Udp => ["udp"]
    case Both => ["tcp", "udp"]
  }

  /** A `u16`. */
  type Port = n: nat | n < 0x1_0000

  datatype PublishedPort = PublishedPort(host: Port, container: Port, protocol: Protocol)

  /** `"<host>:<container>/<transport>"` */
  function BindingKey(host: Port, container: Port, transport: string): string {
    Decimal.Show(host) + ":" + EngineKey(container, transport)
  }

  /** The engine's own name of a port: the container side. */
  function EngineKey(container: Port, transport: string): string {
    Decimal.Show(container) + "/" + transport
  }

  /** One binding to make: engine key and host port. */
  datatype Entry = Entry(key: string, host: string)

  function EntriesOf(port: PublishedPort, transports: seq<string>): seq<Entry> {
    if transports == [] then []
    else [Entry(EngineKey(port.container, transports[0]), Decimal.Show(port.host))] + EntriesOf(port, transports[1..])
  }

  function Entries(ports: seq<PublishedPort>): seq<Entry> {
    if ports == [] then [] else EntriesOf(ports[0], Transports(ports[0].protocol)) + Entries(ports[1..])
  }

  function BindingKeys(port: PublishedPort, transports: seq<string>): seq<string> {
    if transports == [] then []
    else [BindingKey(port.host, port.container, transports[0])] + BindingKeys(port, transports[1..])
  }

  /** The desired side before sorting. */
  function Flattened(ports: seq<PublishedPort>): seq<string> {
    if ports == [] then [] else BindingKeys(ports[0], Transports(ports[0].protocol)) + Flattened(ports[1..])
  }

  function Desired(ports: seq<PublishedPort>): seq<string> {
    Dedup(Sort(Flattened(ports)))
  }

  /**
   The engine keys `create` binds for a list's first port, each to its host port,
   before those of the rest, and likewise the keys wanted: two of each for a port
   over both protocols.
   */
  lemma BoundPerProtocol(port: PublishedPort, rest: seq<PublishedPort>)
    ensures var h, c := Decimal.Show(port.host), Decimal.Show(port.container);
      Entries([port] + rest) == (match port.protocol
                                 case Tcp => [Entry(c + "/tcp", h)]
                                 case Udp => [Entry(c + "/udp", h)]
                                 case Both => [Entry(c + "/tcp", h), Entry(c + "/udp", h)]) + Entries(rest)
    ensures var h, c := Decimal.Show(port.host), Decimal.Show(port.container);
      Flattened([port] + rest) == (match port.protocol
                                   case Tcp => [h + ":" + (c + "/tcp")]
                                   case Udp => [h + ":" + (c + "/udp")]
                                   case Both => [h + ":" + (c + "/tcp"), h + ":" + (c + "/udp")]) + Flattened(rest)
  {
    assert ([port] + rest)[1..] == rest;
    var ts := Transports(port.protocol);
    var h, c := Decimal.Show(port.host), Decimal.Show(port.container);
    assert EngineKey(port.container, "tcp") == c + "/tcp" && EngineKey(port.container, "udp") == c + "/udp";
    assert |ts| == 2 ==> ts[1..] == [ts[1]];
    assert EntriesOf(port, ts[1..]) == if |ts| == 2 then [Entry(EngineKey(port.container, ts[1]), h)] else [];
    assert BindingKeys(port, ts[1..]) == if |ts| == 2 then [BindingKey(port.host, port.container, ts[1])] else [];
  }

  /** `8080:3000/tcp` is the settings' own form of a binding. */
  lemma BindingKeyExample()
    ensures BindingKey(8080, 3000, "tcp") == "8080:3000/tcp"
  {
    Decimal.ShowExample();
  }

  // ----- create

  /** A host binding as the engine keeps it; `hostPort` may be missing or empty. */
  datatype PortBinding = PortBinding(hostPort: Option<string>)

  type Bindings = map<string, Option<seq<PortBinding>>>

  /** Insertions into a hash map in order: the last one for a key stays. */
  function Filled(entries: seq<Entry>): Bindings {
    if entries == [] then map[]
    else
      var last := entries[|entries| - 1];
      Filled(entries[..|entries| - 1])[last.key := Some([PortBinding(Some(last.host))])]
  }

  function KeysIn(entries: seq<Entry>): seq<string> {
    seq(|entries|, i requires 0 <= i < |entries| => entries[i].key)
  }

  /** The port loop: each port's transports in turn, the engine told of the container side. */
  method CreateBindings(ports: seq<PublishedPort>) returns (exposed: seq<string>, bindings: Bindings)
    ensures exposed == KeysIn(Entries(ports)) && bindings == Filled(Entries(ports))
  {
    exposed, bindings := [], map[];
    ghost var made: seq<Entry> := [];
    var p := 0;
    assert [] + Entries(ports) == Entries(ports);
    while p < |ports|
      invariant 0 <= p <= |ports| && Entries(ports) == made + Entries(ports[p..])
      invariant exposed == KeysIn(made) && bindings == Filled(made)
    {
      ghost var own := EntriesOf(ports[p], Transports(ports[p].protocol));
      assert ports[p..][1..] == ports[p + 1..];
      Associate(made, own, Entries(ports[p + 1..]));
      exposed, bindings := PublishPort(ports[p], exposed, bindings, made);
      made := made + own;
      p := p + 1;
    }
    assert made + [] == made;
  }

  method PublishPort(port: PublishedPort, exposed0: seq<string>, bindings0: Bindings, ghost made: seq<Entry>)
    returns (exposed: seq<string>, bindings: Bindings)
    requires exposed0 == KeysIn(made) && bindings0 == Filled(made)
    ensures var all := made + EntriesOf(port, Transports(port.protocol));
        exposed == KeysIn(all) && bindings == Filled(all)
  {
    exposed, bindings := exposed0, bindings0;
    var transports := Transports(port.protocol);
    ghost var all := made + EntriesOf(port, transports);
    ghost var done := made;
    assert transports[0..] == transports;
    var t := 0;
    while t < |transports|
      invariant 0 <= t <= |transports| && all == done + EntriesOf(port, transports[t..])
      invariant exposed == KeysIn(done) && bindings == Filled(done)
    {
      var key := EngineKey(port.container, transports[t]);
      ghost var entry := Entry(key, Decimal.Show(port.host));
      assert transports[t..][1..] == transports[t + 1..];
      Associate(done, [entry], EntriesOf(port, transports[t + 1..]));
      assert (done + [entry])[..|done|] == done;
      exposed := exposed + [key];
      bindings := bindings[key := Some([PortBinding(Some(Decimal.Show(port.host)))])];
      done := done + [entry];
      t := t + 1;
    }
    assert done + [] == done;
  }

  // ----- read back

  /** `split_once('/')`, or the whole key over tcp. */
  function SplitKey(key: string): (string, string) {
    var n := SlashAt(key);
    if n < |key| then (key[..n], key[n + 1..]) else (key, "tcp")
  }

  function SlashAt(key: string): (n: nat)
    ensures n <= |key|
  {
    if key == "" || key[0] == '/' then 0 else 1 + SlashAt(key[1..])
  }

  function AppliedKey(key: string, bindings: Option<seq<PortBinding>>): string {
    var (container, transport) := SplitKey(key);
    var host :=
      if bindings.Some? && bindings.value != [] && bindings.value[0].hostPort.Some?
          && bindings.value[0].hostPort.value != ""
      then bindings.value[0].hostPort.value else "auto";
    host + ":" + container + "/" + transport
  }

  /** Reading the map in hash order, whatever that is, then sorting. */
  method AppliedPorts(bindings: Bindings) returns (ports: seq<string>)
    ensures exists order ::
              Distinct(order) && (forall k :: k in order <==> k in bindings)
                  && ports == Sort(AppliedIn(bindings, order))
  {
    var keys := bindings.Keys;
    ports := [];
    ghost var order: seq<string> := [];
    while keys != {}
      invariant keys <= bindings.Keys && Distinct(order)
      invariant forall k :: k in order <==> k in bindings && k !in keys
      invariant ports == AppliedIn(bindings, order)
      decreases |keys|
    {
      var key :| key in keys;
      ports := ports + [AppliedKey(key, bindings[key])];
      order := order + [key];
      keys := keys - {key};
    }
    ports := Sort(ports);
  }

  function AppliedIn(bindings: Bindings, order: seq<string>): seq<string>
    requires forall k | k in order :: k in bindings
  {
    seq(|order|, i requires 0 <= i < |order| => AppliedKey(order[i], bindings[order[i]]))
  }

  // ----- no drift, and exactly when

  /** Ports that meet on a container port and transport agree on the host port. */
  ghost predicate Consistent(ports: seq<PublishedPort>) {
    forall p, q, t | p in ports && q in ports && t in Transports(p.protocol) && t in Transports(q.protocol)
        && p.container == q.container ::
      p.host == q.host
  }

  lemma {:induction false} EntryOf(ports: seq<PublishedPort>, e: Entry)
    ensures e in Entries(ports) <==>
      exists p, t :: p in ports && t in Transports(p.protocol)
          && e == Entry(EngineKey(p.container, t), Decimal.Show(p.host))
  {
    if ports != [] {
      EntryOf(ports[1..], e);
      var p := ports[0];
      assert Transports(Both)[1..] == ["udp"];
      assert e in EntriesOf(p, Transports(p.protocol)) <==>
        exists t :: t in Transports(p.protocol) && e == Entry(EngineKey(p.container, t), Decimal.Show(p.host)) by {
        EntriesOfPort(p, e);
      }
    }
  }

  lemma EntriesOfPort(p: PublishedPort, e: Entry)
    ensures e in EntriesOf(p, Transports(p.protocol)) <==>
      exists t :: t in Transports(p.protocol) && e == Entry(EngineKey(p.container, t), Decimal.Show(p.host))
  {
    var ts := Transports(p.protocol);
    assert |ts| == 2 ==> ts[1..] == [ts[1]];
    assert forall t :: t in ts <==> t == ts[0] || (|ts| == 2 && t == ts[1]);
    assert EntriesOf(p, ts[1..])
        == if |ts| == 2 then [Entry(EngineKey(p.container, ts[1]), Decimal.Show(p.host))] else [];
  }

  /** The binding key is the entry's host and key joined. */
  function Joined(e: Entry): string {
    e.host + ":" + e.key
  }

  lemma {:induction false} FlattenedAreEntries(ports: seq<PublishedPort>)
    ensures |Flattened(ports)| == |Entries(ports)|
    ensures forall i | 0 <= i < |Entries(ports)| :: Flattened(ports)[i] == Joined(Entries(ports)[i])
  {
    if ports != [] {
      FlattenedAreEntries(ports[1..]);
      PortKeysAreEntries(ports[0], Transports(ports[0].protocol));
    }
  }

  lemma {:induction false} PortKeysAreEntries(port: PublishedPort, transports: seq<string>)
    ensures |BindingKeys(port, transports)| == |EntriesOf(port, transports)|
    ensures forall i | 0 <= i < |EntriesOf(port, transports)| ::
              BindingKeys(port, transports)[i] == Joined(EntriesOf(port, transports)[i])
  {
    if transports != [] {
      PortKeysAreEntries(port, transports[1..]);
    }
  }

  predicate Numeric(s: string) {
    s != "" && forall i | 0 <= i < |s| :: Decimal.IsDigit(s[i])
  }

  function DigitsIn(s: string): (n: nat)
    ensures n <= |s|
  {
    if s == "" || !Decimal.IsDigit(s[0]) then 0 else 1 + DigitsIn(s[1..])
  }

  lemma {:induction false} DigitsBefore(a: string, sep: char, x: string)
    requires !Decimal.IsDigit(sep) && forall i | 0 <= i < |a| :: Decimal.IsDigit(a[i])
    ensures DigitsIn(a + [sep] + x) == |a|
  {
    if a == "" {
      assert a + [sep] + x == [sep] + x;
    } else {
      assert (a + [sep] + x)[1..] == a[1..] + [sep] + x;
      DigitsBefore(a[1..], sep, x);
    }
  }

  /** Digits up to the first separator: both halves can be read back. */
  lemma SeparatorSplits(a: string, x: string, b: string, y: string, sep: char)
    requires !Decimal.IsDigit(sep) && a + [sep] + x == b + [sep] + y
    requires forall i | 0 <= i < |a| :: Decimal.IsDigit(a[i])
    requires forall i | 0 <= i < |b| :: Decimal.IsDigit(b[i])
    ensures a == b && x == y
  {
    DigitsBefore(a, sep, x);
    DigitsBefore(b, sep, y);
    var whole := a + [sep] + x;
    assert a == whole[..|a|] && x == whole[|a| + 1..];
    assert b == (b + [sep] + y)[..|b|] && y == (b + [sep] + y)[|b| + 1..];
  }

  lemma JoinedInjective(d: Entry, e: Entry)
    requires Numeric(d.host) && Numeric(e.host) && Joined(d) == Joined(e)
    ensures d == e
  {
    SeparatorSplits(d.host, d.key, e.host, e.key, ':');
  }

  lemma EngineKeyInjective(c: Port, t: string, d: Port, u: string)
    requires EngineKey(c, t) == EngineKey(d, u)
    ensures c == d && t == u
  {
    SeparatorSplits(Decimal.Show(c), t, Decimal.Show(d), u, '/');
    Decimal.ShowInjective(c, d);
  }

  /** The normalised form tells host, container and transport apart. */
  lemma BindingKeyInjective(h: Port, c: Port, t: string, i: Port, d: Port, u: string)
    requires BindingKey(h, c, t) == BindingKey(i, d, u)
    ensures h == i && c == d && t == u
  {
    JoinedInjective(Entry(EngineKey(c, t), Decimal.Show(h)), Entry(EngineKey(d, u), Decimal.Show(i)));
    Decimal.ShowInjective(h, i);
    EngineKeyInjective(c, t, d, u);
  }

  /** Reading one of our own bindings back rebuilds its binding key. */
  lemma AppliedIsJoined(c: Port, t: string, host: string)
    requires Numeric(host)
    ensures AppliedKey(EngineKey(c, t), Some([PortBinding(Some(host))])) == Joined(Entry(EngineKey(c, t), host))
  {
    assert '/' !in Decimal.Show(c);
    SlashAfter(Decimal.Show(c), "/" + t);
    assert Decimal.Show(c) + "/" + t == Decimal.Show(c) + ("/" + t);
    var key := EngineKey(c, t);
    assert key[..|Decimal.Show(c)|] == Decimal.Show(c) && key[|Decimal.Show(c)| + 1..] == t;
    assert host + ":" + Decimal.Show(c) + "/" + t == host + ":" + (Decimal.Show(c) + "/" + t);
  }

  /** The engine picked the host port itself. */
  predicate Unassigned(bindings: Option<seq<PortBinding>>) {
    bindings == None || bindings.value == [] || bindings.value[0].hostPort in {None, Some("")}
  }

  /** A key without a transport is one over tcp, and a host port the engine picks reads as `auto`. */
  lemma AppliedElse(container: string, transport: string, bindings: Option<seq<PortBinding>>)
    requires '/' !in container
    ensures var host := if Unassigned(bindings) then "auto" else bindings.value[0].hostPort.value;
      && AppliedKey(container, bindings) == host + ":" + container + "/tcp"
      && AppliedKey(container + "/" + transport, bindings) == host + ":" + container + "/" + transport
  {
    SlashAfter(container, "");
    SlashAfter(container, "/" + transport);
    var key := container + "/" + transport;
    assert key == container + ("/" + transport) && container + "" == container;
    assert key[..|container|] == container && key[|container| + 1..] == transport;
  }

  lemma {:induction false} SlashAfter(container: string, rest: string)
    requires '/' !in container && (rest == "" || rest[0] == '/')
    ensures SlashAt(container + rest) == |container|
  {
    if container == "" {
      assert container + rest == rest;
    } else {
      assert (container + rest)[1..] == container[1..] + rest;
      SlashAfter(container[1..], rest);
    }
  }

  /** The map holds this entry's binding. */
  predicate Kept(entries: seq<Entry>, e: Entry) {
    e.key in Filled(entries) && Filled(entries)[e.key] == Some([PortBinding(Some(e.host))])
  }

  /** Of the entries for one key, the map keeps the last. */
  lemma {:induction false} FilledKeepsLast(entries: seq<Entry>, i: nat)
    requires i < |entries| && forall j | i < j < |entries| :: entries[j].key != entries[i].key
    ensures Kept(entries, entries[i])
  {
    var n := |entries| - 1;
    if i < n {
      assert entries[..n][i] == entries[i];
      FilledKeepsLast(entries[..n], i);
    }
  }

  /** What the map keeps of the entries: for each key, one of them. */
  lemma {:induction false} FilledKeepsOne(entries: seq<Entry>)
    ensures forall k :: k in Filled(entries) <==> exists e :: e in entries && e.key == k
    ensures forall k | k in Filled(entries) ::
              exists e :: e in entries && e.key == k && Filled(entries)[k] == Some([PortBinding(Some(e.host))])
  {
    if entries != [] {
      var n := |entries| - 1;
      FilledKeepsOne(entries[..n]);
      assert entries == entries[..n] + [entries[n]];
      forall k | k in Filled(entries)
        ensures exists e :: e in entries && e.key == k && Filled(entries)[k] == Some([PortBinding(Some(e.host))])
      {
        if k == entries[n].key {
          assert entries[n] in entries;
        } else {
          assert k in Filled(entries[..n]);
          var e :| e in entries[..n] && e.key == k && Filled(entries[..n])[k] == Some([PortBinding(Some(e.host))]);
          assert e in entries;
        }
      }
    }
  }

  lemma EntriesNumeric(ports: seq<PublishedPort>, e: Entry)
    requires e in Entries(ports)
    ensures Numeric(e.host)
    ensures AppliedKey(e.key, Some([PortBinding(Some(e.host))])) == Joined(e)
  {
    EntryOf(ports, e);
    var p, t :| p in ports && t in Transports(p.protocol)
        && e == Entry(EngineKey(p.container, t), Decimal.Show(p.host));
    AppliedIsJoined(p.container, t, e.host);
  }

  /** The keys read back, in any map order, are the joins of the entries the map kept. */
  lemma AppliedMembers(ports: seq<PublishedPort>, order: seq<string>, x: string)
    requires Distinct(order) && forall k :: k in order <==> k in Filled(Entries(ports))
    ensures x in AppliedIn(Filled(Entries(ports)), order)
      <==> exists e :: e in Entries(ports) && Kept(Entries(ports), e) && x == Joined(e)
  {
    var es, m := Entries(ports), Filled(Entries(ports));
    var applied := AppliedIn(m, order);
    FilledKeepsOne(es);
    if x in applied {
      var i :| 0 <= i < |applied| && applied[i] == x;
      var k := order[i];
      assert k in order;
      var e :| e in es && e.key == k && m[k] == Some([PortBinding(Some(e.host))]);
      EntriesNumeric(ports, e);
    }
    if e :| e in es && Kept(es, e) && x == Joined(e) {
      EntriesNumeric(ports, e);
      assert e.key in order;
      var i :| 0 <= i < |order| && order[i] == e.key;
      assert applied[i] == x;
    }
  }

  lemma AppliedDistinct(ports: seq<PublishedPort>, order: seq<string>)
    requires Distinct(order) && forall k :: k in order <==> k in Filled(Entries(ports))
    ensures Distinct(AppliedIn(Filled(Entries(ports)), order))
  {
    var es, m := Entries(ports), Filled(Entries(ports));
    var applied := AppliedIn(m, order);
    FilledKeepsOne(es);
    forall i, j | 0 <= i < j < |applied|
      ensures applied[i] != applied[j]
    {
      assert order[i] in order && order[j] in order;
      var d :| d in es && d.key == order[i] && m[order[i]] == Some([PortBinding(Some(d.host))]);
      var e :| e in es && e.key == order[j] && m[order[j]] == Some([PortBinding(Some(e.host))]);
      EntriesNumeric(ports, d);
      EntriesNumeric(ports, e);
      if applied[i] == applied[j] {
        JoinedInjective(d, e);
      }
    }
  }

  lemma {:induction false} SortDistinct(xs: seq<string>)
    requires Distinct(xs)
    ensures Distinct(Sort(xs)) && forall x :: x in Sort(xs) <==> x in xs
  {
    SortSorts(xs);
    var ys := Sort(xs);
    forall x
      ensures x in ys <==> x in xs
    {
      assert x in multiset(ys) <==> x in multiset(xs);
    }
    forall i, j | 0 <= i < j < |ys|
      ensures ys[i] != ys[j]
    {
      CountTwice(ys, i, j);
      DistinctCount(xs, ys[i]);
    }
  }

  lemma CountTwice(ys: seq<string>, i: int, j: int)
    requires 0 <= i < j < |ys|
    ensures ys[i] == ys[j] ==> multiset(ys)[ys[i]] >= 2
  {
    assert ys == ys[..j] + [ys[j]] + ys[j + 1..];
    assert ys[..j][i] == ys[i] && ys[i] in ys[..j];
    assert multiset(ys) == multiset(ys[..j]) + multiset{ys[j]} + multiset(ys[j + 1..]);
  }

  lemma {:induction false} DistinctCount(xs: seq<string>, x: string)
    requires Distinct(xs)
    ensures multiset(xs)[x] <= 1
  {
    if xs != [] {
      DistinctCount(xs[1..], x);
      assert xs == [xs[0]] + xs[1..];
      assert x == xs[0] ==> x !in xs[1..];
    }
  }

  /** The keys desired are the joins of all entries. */
  lemma DesiredMembers(ports: seq<PublishedPort>, x: string)
    ensures Sorted(Desired(ports)) && Distinct(Desired(ports))
    ensures x in Desired(ports) <==> exists e :: e in Entries(ports) && x == Joined(e)
  {
    var es, flat := Entries(ports), Flattened(ports);
    FlattenedAreEntries(ports);
    SortSorts(flat);
    DedupKeeps(Sort(flat));
    assert x in multiset(Sort(flat)) <==> x in multiset(flat);
    if x in flat {
      var i :| 0 <= i < |flat| && flat[i] == x;
      assert es[i] in es && x == Joined(es[i]);
    }
    if e :| e in es && x == Joined(e) {
      var i :| 0 <= i < |es| && es[i] == e;
      assert flat[i] == x;
    }
  }

  /** No two entries share a key unless they share the host too. */
  lemma ConsistentEntries(ports: seq<PublishedPort>)
    ensures Consistent(ports) <==> forall d, e | d in Entries(ports) && e in Entries(ports) && d.key == e.key :: d == e
  {
    var es := Entries(ports);
    if Consistent(ports) {
      forall d, e | d in es && e in es && d.key == e.key
        ensures d == e
      {
        EntryOf(ports, d);
        EntryOf(ports, e);
        var p, t :| p in ports && t in Transports(p.protocol)
            && d == Entry(EngineKey(p.container, t), Decimal.Show(p.host));
        var q, u :| q in ports && u in Transports(q.protocol)
            && e == Entry(EngineKey(q.container, u), Decimal.Show(q.host));
        EngineKeyInjective(p.container, t, q.container, u);
      }
    } else {
      var p, q, t :| p in ports && q in ports && t in Transports(p.protocol) && t in Transports(q.protocol)
                     && p.container == q.container && p.host != q.host;
      var d, e := Entry(EngineKey(p.container, t), Decimal.Show(p.host)),
          Entry(EngineKey(q.container, t), Decimal.Show(q.host));
      EntryOf(ports, d);
      EntryOf(ports, e);
      Decimal.ShowInjective(p.host, q.host);
      assert d in es && e in es && d.key == e.key && d != e;
    }
  }

  /**
   Create and read back: the container just created shows no port drift, in any
   map order, exactly when published ports that meet on a container port and
   transport agree on the host port. Where two disagree the drift never ends.
   */
  lemma NoDriftIffConsistent(ports: seq<PublishedPort>, order: seq<string>)
    requires Distinct(order) && forall k :: k in order <==> k in Filled(Entries(ports))
    ensures Sort(AppliedIn(Filled(Entries(ports)), order)) == Desired(ports) <==> Consistent(ports)
  {
    DriftIff(ports, ports, order);
    ConsistentEntries(ports);
    var es, m := Entries(ports), Filled(Entries(ports));
    FilledKeepsOne(es);
    if forall d, e | d in es && e in es && d.key == e.key :: d == e {
      forall x
        ensures Reads(ports, x) <==> Wants(ports, x)
      {
        if e :| e in es && x == Joined(e) {
          assert e.key in m;
          var d :| d in es && d.key == e.key && m[e.key] == Some([PortBinding(Some(d.host))]);
          assert d == e;
        }
      }
    } else {
      var d, e :| d in es && e in es && d.key == e.key && d != e;
      var f := if Kept(es, d) then e else d;
      assert Wants(ports, Joined(f));
      if Reads(ports, Joined(f)) {
        var g :| g in es && Kept(es, g) && Joined(f) == Joined(g);
        EntriesNumeric(ports, f);
        EntriesNumeric(ports, g);
        JoinedInjective(f, g);
      }
    }
  }

  /** Two host ports for container port 80: every read-back of the container just created is drift. */
  lemma ConflictDriftsExample(order: seq<string>)
    requires var ports := [PublishedPort(8080, 80, Tcp), PublishedPort(9090, 80, Both)];
      Distinct(order) && forall k :: k in order <==> k in Filled(Entries(ports))
    ensures var ports := [PublishedPort(8080, 80, Tcp), PublishedPort(9090, 80, Both)];
      Sort(AppliedIn(Filled(Entries(ports)), order)) != Desired(ports)
  {
    var ports := [PublishedPort(8080, 80, Tcp), PublishedPort(9090, 80, Both)];
    var p, q := ports[0], ports[1];
    assert p in ports && q in ports && "tcp" in Transports(p.protocol) && "tcp" in Transports(q.protocol);
    assert p.container == q.container && p.host != q.host;
    NoDriftIffConsistent(ports, order);
  }

  /** A key the engine would show for a container created from `ports`. */
  ghost predicate Reads(ports: seq<PublishedPort>, x: string) {
    exists e :: e in Entries(ports) && Kept(Entries(ports), e) && x == Joined(e)
  }

  /** A key the settings ask for. */
  ghost predicate Wants(ports: seq<PublishedPort>, x: string) {
    exists e :: e in Entries(ports) && x == Joined(e)
  }

  lemma DriftIff(created: seq<PublishedPort>, wanted: seq<PublishedPort>, order: seq<string>)
    requires Distinct(order) && forall k :: k in order <==> k in Filled(Entries(created))
    ensures Sort(AppliedIn(Filled(Entries(created)), order)) == Desired(wanted)
      <==> forall x :: Reads(created, x) <==> Wants(wanted, x)
  {
    var applied := AppliedIn(Filled(Entries(created)), order);
    AppliedDistinct(created, order);
    SortSorts(applied);
    SortDistinct(applied);
    forall x
      ensures x in Sort(applied) <==> Reads(created, x)
      ensures x in Desired(wanted) <==> Wants(wanted, x)
    {
      AppliedMembers(created, order, x);
      DesiredMembers(wanted, x);
    }
    DesiredMembers(wanted, "");
    if forall x :: Reads(created, x) <==> Wants(wanted, x) {
      SortedUnique(Sort(applied), Desired(wanted));
    }
  }

  /** Such a binding matches no desired key: whatever the settings ask for, its container is recreated. */
  lemma UnassignedAlwaysDrifts(bindings: Bindings, order: seq<string>, key: string, wanted: seq<PublishedPort>)
    requires forall k :: k in order <==> k in bindings
    requires key in bindings && Unassigned(bindings[key])
    ensures Sort(AppliedIn(bindings, order)) != Desired(wanted)
  {
    var applied := AppliedIn(bindings, order);
    var x := AppliedKey(key, bindings[key]);
    var i :| 0 <= i < |order| && order[i] == key;
    assert applied[i] == x && x in multiset(applied);
    SortSorts(applied);
    assert x in Sort(applied) by { assert x in multiset(Sort(applied)); }
    assert x[0] == 'a';
    DesiredMembers(wanted, x);
    if e :| e in Entries(wanted) && x == Joined(e) {
      EntriesNumeric(wanted, e);
    }
  }

  ghost predicate Publishes(ports: seq<PublishedPort>, h: Port, c: Port, t: string) {
    exists p :: p in ports && p.host == h && p.container == c && t in Transports(p.protocol)
  }

  lemma PublishedEntry(ports: seq<PublishedPort>, h: Port, c: Port, t: string)
    ensures Publishes(ports, h, c, t) <==> Entry(EngineKey(c, t), Decimal.Show(h)) in Entries(ports)
  {
    var e := Entry(EngineKey(c, t), Decimal.Show(h));
    EntryOf(ports, e);
    if e in Entries(ports) {
      var p, u :| p in ports && u in Transports(p.protocol)
          && e == Entry(EngineKey(p.container, u), Decimal.Show(p.host));
      EngineKeyInjective(c, t, p.container, u);
      Decimal.ShowInjective(h, p.host);
    }
  }

  /**
   Changed settings against an existing container: no drift is seen exactly when
   the same host ports lead to the same container ports over the same
   transports. Re-picking a host port alone is always seen.
   */
  lemma DriftIffSameBindings(created: seq<PublishedPort>, wanted: seq<PublishedPort>, order: seq<string>)
    requires Consistent(created)
    requires Distinct(order) && forall k :: k in order <==> k in Filled(Entries(created))
    ensures Sort(AppliedIn(Filled(Entries(created)), order)) == Desired(wanted)
      <==> forall h, c, t :: Publishes(created, h, c, t) <==> Publishes(wanted, h, c, t)
  {
    DriftIff(created, wanted, order);
    NoDriftIffConsistent(created, order);
    DriftIff(created, created, order);
    if forall x :: Wants(created, x) <==> Wants(wanted, x) {
      forall h, c, t
        ensures Publishes(created, h, c, t) <==> Publishes(wanted, h, c, t)
      {
        WantsBinding(created, h, c, t);
        WantsBinding(wanted, h, c, t);
      }
    }
    if forall h, c, t :: Publishes(created, h, c, t) <==> Publishes(wanted, h, c, t) {
      forall x
        ensures Wants(created, x) <==> Wants(wanted, x)
      {
        WantedElsewhere(created, wanted, x);
        WantedElsewhere(wanted, created, x);
      }
    }
  }

  lemma WantsBinding(ports: seq<PublishedPort>, h: Port, c: Port, t: string)
    ensures Publishes(ports, h, c, t) <==> Wants(ports, BindingKey(h, c, t))
  {
    var e := Entry(EngineKey(c, t), Decimal.Show(h));
    PublishedEntry(ports, h, c, t);
    assert BindingKey(h, c, t) == Joined(e);
    if Wants(ports, Joined(e)) {
      var d :| d in Entries(ports) && Joined(e) == Joined(d);
      EntriesNumeric(ports, d);
      JoinedInjective(d, e);
    }
  }

  lemma WantedElsewhere(ports: seq<PublishedPort>, others: seq<PublishedPort>, x: string)
    requires forall h, c, t :: Publishes(ports, h, c, t) ==> Publishes(others, h, c, t)
    ensures Wants(ports, x) ==> Wants(others, x)
  {
    if e :| e in Entries(ports) && x == Joined(e) {
      EntryOf(ports, e);
      var p, t :| p in ports && t in Transports(p.protocol)
          && e == Entry(EngineKey(p.container, t), Decimal.Show(p.host));
      assert Publishes(ports, p.host, p.container, t);
      PublishedEntry(others, p.host, p.container, t);
    }
  }
}
