/** The Kubernetes agent's load-balancer table, maintained by differences when a service
    changes. */
module ServiceDiff {

  datatype Backend = Backend(ip: string, port: int)

  /** Key of a port within its service. */
  datatype PortKey = PortKey(port: int, proto: string)

  datatype ServicePort = ServicePort(port: int, proto: string, nodeport: int, backends: set<Backend>)

  datatype Service = Service(name: string, kind: string, vip: string, policy: string, ports: map<PortKey, ServicePort>)
  {
    /** Whether ports are also served on the node's own address. */
    predicate OnNode() {
      kind == "NodePort" && policy != "Local"
    }

    /** Ports are stored under their own key. */
    ghost predicate Keyed() {
      forall k :: k in ports ==> ports[k].port == k.port && ports[k].proto == k.proto
    }
  }

  /** A row of the load balancer, by (address, port, protocol). */
  datatype RowKey = RowKey(ip: string, port: int, proto: string)

  datatype Row = Row(name: string, backends: set<Backend>)

  type Table = map<RowKey, Row>

  function VipKey(s: Service, p: ServicePort): RowKey {
    RowKey(s.vip, p.port, p.proto)
  }

  function NodeKey(nodeIp: string, p: ServicePort): RowKey {
    RowKey(nodeIp, p.nodeport, p.proto)
  }

  /** The rows that serve a port. */
  function Keys(s: Service, nodeIp: string, p: ServicePort): set<RowKey> {
    {VipKey(s, p)} + if s.OnNode() then {NodeKey(nodeIp, p)} else {}
  }

  function RowOf(s: Service, p: ServicePort): Row {
    Row(s.name, p.backends)
  }

  /** Different ports are served by different rows. */
  ghost predicate Distinct(s: Service, nodeIp: string, ports: map<PortKey, ServicePort>) {
    forall j, k :: j in ports && k in ports && j != k ==> Keys(s, nodeIp, ports[j]) !! Keys(s, nodeIp, ports[k])
  }

  /** Row r is that of some port. */
  ghost predicate Serves(s: Service, nodeIp: string, ports: map<PortKey, ServicePort>, r: RowKey) {
    exists k :: k in ports && r in Keys(s, nodeIp, ports[k])
  }

  /** The table consists of foreign rows and the rows of the given ports. */
  ghost predicate Holds(t: Table, foreign: Table, s: Service, nodeIp: string, ports: map<PortKey, ServicePort>) {
    && (forall k, r :: k in ports && r in Keys(s, nodeIp, ports[k]) ==>
        r in t && t[r] == RowOf(s, ports[k]) && r !in foreign)
    && (forall r :: r in foreign ==> r in t && t[r] == foreign[r])
    && (forall r :: r in t ==> r in foreign || Serves(s, nodeIp, ports, r))
  }

  /** What an update assumes not to change. */
  ghost predicate SameIdentity(a: Service, b: Service) {
    a.vip == b.vip && a.kind == b.kind && a.policy == b.policy && a.name == b.name
  }

  /** The ports of the new service as an update serves them: those that were there keep
      their old node port. */
  ghost function Merged(before: Service, after: Service): map<PortKey, ServicePort> {
    map k | k in after.ports ::
        if k in before.ports then before.ports[k].(backends := after.ports[k].backends) else after.ports[k]
  }

  /** A new port that asks for a node port which a kept port has had: its node row cannot be
      created. */
  ghost predicate Clashes(before: Service, after: Service, k: PortKey) {
    after.OnNode() && k in after.ports && k !in before.ports
    && exists j :: j in before.ports && j in after.ports
                   && before.ports[j].nodeport == after.ports[k].nodeport &&
                     before.ports[j].proto == after.ports[k].proto
  }

  ghost function Clashing(before: Service, after: Service): set<PortKey> {
    set k | k in after.ports && Clashes(before, after, k)
  }

  /** The ports whose rows are all there after an update. */
  ghost function Served(before: Service, after: Service): map<PortKey, ServicePort> {
    Merged(before, after) - Clashing(before, after)
  }

  /** The same before backends change. */
  ghost function Unchanged(before: Service, after: Service): map<PortKey, ServicePort> {
    map k | k in after.ports && k !in Clashing(before, after) ::
        if k in before.ports then before.ports[k] else after.ports[k]
  }

  /** The table with the VIP rows of some of the service's ports. */
  ghost function WithVips(t: Table, s: Service, ks: set<PortKey>): Table
    requires s.Keyed()
  {
    t + map k | k in ks && k in s.ports :: VipKey(s, s.ports[k]) := RowOf(s, s.ports[k])
  }

  /** The port's rows can be created once those that its VIP row leads to are deleted. */
  predicate Addable(t: Table, s: Service, nodeIp: string, p: ServicePort) {
    s.OnNode() ==> VipKey(s, p) != NodeKey(nodeIp, p) && (NodeKey(nodeIp, p) in t ==> VipKey(s, p) in t)
  }

  /** Table t is t0 with the rows of the given ports written over it. */
  ghost predicate Overwrites(t: Table, t0: Table, s: Service, nodeIp: string, ports: map<PortKey, ServicePort>) {
    && t0.Keys <= t.Keys
    && (forall k, r :: k in ports && r in Keys(s, nodeIp, ports[k]) ==> r in t && t[r] == RowOf(s, ports[k]))
    && (forall r :: r in t && !Serves(s, nodeIp, ports, r) ==> r in t0 && t[r] == t0[r])
  }

  /** Row r is that of a port whose VIP row exists. */
  ghost predicate Deletes(t: Table, s: Service, nodeIp: string, ports: map<PortKey, ServicePort>, r: RowKey) {
    exists k :: k in ports && VipKey(s, ports[k]) in t && r in Keys(s, nodeIp, ports[k])
  }

  /** Table t is t0 without those rows. */
  ghost predicate Without(t: Table, t0: Table, s: Service, nodeIp: string, ports: map<PortKey, ServicePort>) {
    && (forall r :: r in t ==> r in t0 && t[r] == t0[r])
    && (forall r :: r in t0 ==> (r !in t <==> Deletes(t0, s, nodeIp, ports, r)))
  }

  lemma SameAddable(t: Table, t0: Table, s: Service, nodeIp: string, left: set<PortKey>, k: PortKey)
    requires k in left && left <= s.ports.Keys && Distinct(s, nodeIp, s.ports)
    requires Overwrites(t, t0, s, nodeIp, s.ports - left)
    ensures Addable(t, s, nodeIp, s.ports[k]) <==> Addable(t0, s, nodeIp, s.ports[k])
  {
    forall r | r in Keys(s, nodeIp, s.ports[k]) ensures !Serves(s, nodeIp, s.ports - left, r) {
      assert forall j :: j in s.ports - left ==> j in s.ports && j != k;
    }
  }

  lemma OverwritesOneMore(t': Table, t: Table, t0: Table, s: Service, nodeIp: string, left: set<PortKey>, k: PortKey)
    requires k in left && left <= s.ports.Keys && Distinct(s, nodeIp, s.ports)
    requires Overwrites(t, t0, s, nodeIp, s.ports - left)
    requires t'.Keys == t.Keys + Keys(s, nodeIp, s.ports[k])
    requires forall r :: r in t' ==> t'[r] == if r in Keys(s, nodeIp, s.ports[k]) then RowOf(s, s.ports[k]) else t[r]
    ensures Overwrites(t', t0, s, nodeIp, s.ports - (left - {k}))
  {
    hide Keys, RowOf;
    var done, more := s.ports - left, s.ports - (left - {k});
    assert forall j :: j in more <==> j in done || j == k;
    forall j, r | j in more && r in Keys(s, nodeIp, more[j]) ensures r in t' && t'[r] == RowOf(s, more[j]) {
      assert j != k ==> j in done && done[j] == more[j];
    }
    forall r | r in t' && !Serves(s, nodeIp, more, r) ensures r in t0 && t'[r] == t0[r] {
      assert k in more && more[k] == s.ports[k];
      assert forall j :: j in done ==> j in more && done[j] == more[j];
    }
  }

  lemma DeletesOneMore(t': Table, t: Table, t0: Table, s: Service, nodeIp: string, left: set<PortKey>, k: PortKey)
    requires k in left && left <= s.ports.Keys && Distinct(s, nodeIp, s.ports)
    requires Without(t, t0, s, nodeIp, s.ports - left)
    requires t' == if VipKey(s, s.ports[k]) in t then t - Keys(s, nodeIp, s.ports[k]) else t
    ensures Without(t', t0, s, nodeIp, s.ports - (left - {k}))
  {
    hide Keys, VipKey, Distinct, Deletes;
    var done, p, v, rows := s.ports - left, s.ports[k], VipKey(s, s.ports[k]), Keys(s, nodeIp, s.ports[k]);
    assert v in rows by { VipIsKey(s, nodeIp, p); }
    NotDeletedBefore(t0, s, nodeIp, done, k);
    assert v in t <==> v in t0;
    forall r | r in t0 ensures r !in t' <==> Deletes(t0, s, nodeIp, s.ports - (left - {k}), r) {
      DeletesSplit(t0, s, nodeIp, left, k, r);
    }
  }

  lemma NotDeletedBefore(t: Table, s: Service, nodeIp: string, done: map<PortKey, ServicePort>, k: PortKey)
    requires k in s.ports && Distinct(s, nodeIp, s.ports)
    requires forall j :: j in done ==> j in s.ports && done[j] == s.ports[j] && j != k
    ensures forall r :: r in Keys(s, nodeIp, s.ports[k]) ==> !Deletes(t, s, nodeIp, done, r)
  {
    hide Keys, VipKey;
  }

  lemma DeletesSplit(t: Table, s: Service, nodeIp: string, left: set<PortKey>, k: PortKey, r: RowKey)
    requires k in left && left <= s.ports.Keys
    ensures Deletes(t, s, nodeIp, s.ports - (left - {k}), r) <==>
            Deletes(t, s, nodeIp, s.ports - left, r) || (VipKey(s, s.ports[k]) in t && r in Keys(s, nodeIp, s.ports[k]))
  {
    hide Keys, VipKey;
    var done, more := s.ports - left, s.ports - (left - {k});
    assert forall j :: j in more <==> j in done || j == k;
    assert forall j :: j in done ==> done[j] == more[j];
    assert more[k] == s.ports[k];
  }

  lemma NoneDeleted(t: Table, s: Service, nodeIp: string)
    ensures Without(t, t, s, nodeIp, map[])
  {
  }

  lemma VipIsKey(s: Service, nodeIp: string, p: ServicePort)
    ensures VipKey(s, p) in Keys(s, nodeIp, p)
  {
  }

  /** Over the rows of an earlier version with the same keys, the new rows replace them. */
  lemma OlderReplaced(t: Table, t0: Table, foreign: Table, s: Service, nodeIp: string, older: map<PortKey, ServicePort>)
    requires s.vip != nodeIp && Holds(t0, foreign, s, nodeIp, older) && Distinct(s, nodeIp, older + s.ports)
    requires forall k :: k in older && k in s.ports ==> Keys(s, nodeIp, older[k]) == Keys(s, nodeIp, s.ports[k])
    requires forall k, r :: k in s.ports && r in Keys(s, nodeIp, s.ports[k]) ==> r !in foreign
    ensures forall k :: k in s.ports ==> Addable(t0, s, nodeIp, s.ports[k])
    ensures Overwrites(t, t0, s, nodeIp, s.ports) ==> Holds(t, foreign, s, nodeIp, older + s.ports)
  {
    hide Distinct, Addable, Holds, Overwrites, Keys;
    forall k | k in s.ports ensures Addable(t0, s, nodeIp, s.ports[k]) {
      SameRowsDistinct(s, nodeIp, older[k := s.ports[k]], older + s.ports);
      OlderAddable(t0, foreign, s, nodeIp, older, k, s.ports[k]);
    }
    if Overwrites(t, t0, s, nodeIp, s.ports) { OverwrittenHolds(t, t0, foreign, s, nodeIp, older); }
  }

  lemma OlderAddable(t: Table, foreign: Table, s: Service, nodeIp: string, older: map<PortKey, ServicePort>,
                     k: PortKey, p: ServicePort)
    requires s.vip != nodeIp && Holds(t, foreign, s, nodeIp, older) && Distinct(s, nodeIp, older[k := p])
    requires k in older ==> Keys(s, nodeIp, older[k]) == Keys(s, nodeIp, p)
    requires forall r :: r in Keys(s, nodeIp, p) ==> r !in foreign
    ensures Addable(t, s, nodeIp, p)
  {
    hide Holds, Distinct, RowOf;
    if k in older {
      RowsThere(t, foreign, s, nodeIp, older, k);
    } else {
      NewRows(t, foreign, s, nodeIp, older, k, p);
    }
  }

  lemma RowsThere(t: Table, foreign: Table, s: Service, nodeIp: string, ports: map<PortKey, ServicePort>, k: PortKey)
    requires Holds(t, foreign, s, nodeIp, ports) && k in ports
    ensures Keys(s, nodeIp, ports[k]) <= t.Keys
  {
  }

  lemma OtherRow(s: Service, nodeIp: string, older: map<PortKey, ServicePort>, k: PortKey, r: RowKey)
    requires Distinct(s, nodeIp, older + s.ports) && k in older && k !in s.ports && r in Keys(s, nodeIp, older[k])
    ensures !Serves(s, nodeIp, s.ports, r)
  {
    hide Keys, RowOf;
    var all := older + s.ports;
    assert all[k] == older[k] && forall j :: j in s.ports ==> all[j] == s.ports[j];
  }

  lemma OverwrittenHolds(t: Table, t0: Table, foreign: Table, s: Service, nodeIp: string,
                         older: map<PortKey, ServicePort>)
    requires Holds(t0, foreign, s, nodeIp, older) && Distinct(s, nodeIp, older + s.ports)
    requires forall k :: k in older && k in s.ports ==> Keys(s, nodeIp, older[k]) == Keys(s, nodeIp, s.ports[k])
    requires forall k, r :: k in s.ports && r in Keys(s, nodeIp, s.ports[k]) ==> r !in foreign
    requires Overwrites(t, t0, s, nodeIp, s.ports)
    ensures Holds(t, foreign, s, nodeIp, older + s.ports)
  {
    hide Overwrites, Distinct, Keys, RowOf, Serves;
    var all := older + s.ports;
    forall k, r | k in all && r in Keys(s, nodeIp, all[k]) ensures r in t && t[r] == RowOf(s, all[k]) && r !in foreign {
      RowOverwritten(t, t0, foreign, s, nodeIp, older, k, r);
    }
    forall r | r in foreign ensures r in t && t[r] == foreign[r] {
      ForeignOverwritten(t, t0, foreign, s, nodeIp, r);
    }
    forall r | r in t && r !in foreign ensures Serves(s, nodeIp, all, r) {
      ServedOverwritten(t, t0, foreign, s, nodeIp, older, r);
    }
  }

  lemma RowOverwritten(t: Table, t0: Table, foreign: Table, s: Service, nodeIp: string,
                       older: map<PortKey, ServicePort>, k: PortKey, r: RowKey)
    requires Holds(t0, foreign, s, nodeIp, older) && Overwrites(t, t0, s, nodeIp, s.ports)
    requires Distinct(s, nodeIp, older + s.ports) && k in older + s.ports && r in Keys(s, nodeIp, (older + s.ports)[k])
    requires forall k, r :: k in s.ports && r in Keys(s, nodeIp, s.ports[k]) ==> r !in foreign
    ensures r in t && t[r] == RowOf(s, (older + s.ports)[k]) && r !in foreign
  {
    hide Keys, RowOf, Serves, Distinct;
    if k !in s.ports { OtherRow(s, nodeIp, older, k, r); }
  }

  lemma ForeignOverwritten(t: Table, t0: Table, foreign: Table, s: Service, nodeIp: string, r: RowKey)
    requires r in foreign && r in t0 && t0[r] == foreign[r] && Overwrites(t, t0, s, nodeIp, s.ports)
    requires forall k :: k in s.ports && r in Keys(s, nodeIp, s.ports[k]) ==> r !in foreign
    ensures r in t && t[r] == foreign[r]
  {
    hide Keys, RowOf;
  }

  lemma ServedOverwritten(t: Table, t0: Table, foreign: Table, s: Service, nodeIp: string,
                          older: map<PortKey, ServicePort>, r: RowKey)
    requires r in t && r !in foreign && Overwrites(t, t0, s, nodeIp, s.ports)
    requires r in t0 ==> Serves(s, nodeIp, older, r)
    requires forall k :: k in older && k in s.ports ==> Keys(s, nodeIp, older[k]) == Keys(s, nodeIp, s.ports[k])
    ensures Serves(s, nodeIp, older + s.ports, r)
  {
    hide Keys, RowOf;
    var all := older + s.ports;
    if Serves(s, nodeIp, s.ports, r) {
      var k :| k in s.ports && r in Keys(s, nodeIp, s.ports[k]);
      assert k in all && all[k] == s.ports[k];
    } else {
      var k :| k in older && r in Keys(s, nodeIp, older[k]);
      assert k in all && Keys(s, nodeIp, all[k]) == Keys(s, nodeIp, older[k]);
    }
  }

  /** The ports that an update serves are served by different rows. */
  lemma ServedDistinct(before: Service, after: Service, nodeIp: string)
    requires before.Keyed() && after.Keyed() && after.vip != nodeIp
    requires Distinct(after, nodeIp, before.ports) && Distinct(after, nodeIp, after.ports - before.ports.Keys)
    ensures Distinct(after, nodeIp, Unchanged(before, after)) && Distinct(after, nodeIp, Served(before, after))
    ensures forall k :: k in Served(before, after) ==>
              Keys(after, nodeIp, Served(before, after)[k]) == Keys(after, nodeIp, Unchanged(before, after)[k])
  {
    var ports := Unchanged(before, after);
    forall j, k | j in ports && k in ports && j != k
      ensures Keys(after, nodeIp, ports[j]) !! Keys(after, nodeIp, ports[k])
    {
      if j in before.ports && k in before.ports {
        assert Keys(after, nodeIp, before.ports[j]) !! Keys(after, nodeIp, before.ports[k]);
      } else if j !in before.ports && k !in before.ports {
        var added := after.ports - before.ports.Keys;
        assert j in added && k in added && Keys(after, nodeIp, added[j]) !! Keys(after, nodeIp, added[k]);
      } else if j in before.ports {
        KeptAndNew(before, after, nodeIp, j, k);
      } else {
        KeptAndNew(before, after, nodeIp, k, j);
      }
    }
    assert forall k :: k in Served(before, after) ==>
        Keys(after, nodeIp, Served(before, after)[k]) == Keys(after, nodeIp, ports[k]);
    SameRowsDistinct(after, nodeIp, Served(before, after), ports);
  }

  lemma KeptAndNew(before: Service, after: Service, nodeIp: string, j: PortKey, k: PortKey)
    requires before.Keyed() && after.Keyed() && after.vip != nodeIp
    requires j in before.ports && j in after.ports && k in after.ports && k !in before.ports &&
             !Clashes(before, after, k)
    ensures Keys(after, nodeIp, before.ports[j]) !! Keys(after, nodeIp, after.ports[k])
  {
  }

  /** A clashing port gets its VIP row only. */
  lemma VipAdded(t: Table, foreign: Table, before: Service, after: Service, nodeIp: string,
                 ports: map<PortKey, ServicePort>, ks: set<PortKey>, k: PortKey)
    requires before.Keyed() && after.Keyed() && after.vip != nodeIp && Clashes(before, after, k) && k !in ks
    requires ports.Keys !! ks && k !in ports && ports.Keys <= after.ports.Keys
    requires forall j :: j in ports ==> ports[j].port == j.port && ports[j].proto == j.proto
    requires forall j :: j in before.ports && j in after.ports ==> j in ports && ports[j] == before.ports[j]
    requires forall r :: r in Keys(after, nodeIp, after.ports[k]) ==> r !in foreign
    requires Holds(t, WithVips(foreign, after, ks), after, nodeIp, ports)
    ensures !Addable(t, after, nodeIp, after.ports[k])
    ensures var row := RowOf(after, after.ports[k]);
            Holds(t[VipKey(after, after.ports[k]) := row], WithVips(foreign, after, ks + {k}), after, nodeIp, ports)
  {
    var p, more := after.ports[k], WithVips(foreign, after, ks);
    var v := VipKey(after, p);
    VipIsKey(after, nodeIp, p);
    VipIsNew(foreign, after, nodeIp, ks, k);
    var j :| j in before.ports && j in after.ports && before.ports[j].nodeport == p.nodeport &&
      before.ports[j].proto == p.proto;
    assert NodeKey(nodeIp, p) in Keys(after, nodeIp, ports[j]);
    assert !Serves(after, nodeIp, ports, v);
    WithOneMoreVip(foreign, after, ks, k);
    RowAdded(t, more, after, nodeIp, ports, v, RowOf(after, p));
  }

  lemma NoVips(foreign: Table, s: Service)
    requires s.Keyed()
    ensures WithVips(foreign, s, {}) == foreign
  {
  }

  lemma VipIsNew(foreign: Table, s: Service, nodeIp: string, ks: set<PortKey>, k: PortKey)
    requires s.Keyed() && k in s.ports && k !in ks && VipKey(s, s.ports[k]) !in foreign
    ensures VipKey(s, s.ports[k]) !in WithVips(foreign, s, ks)
  {
  }

  lemma WithOneMoreVip(foreign: Table, s: Service, ks: set<PortKey>, k: PortKey)
    requires s.Keyed() && k in s.ports && k !in ks
    ensures WithVips(foreign, s, ks + {k}) == WithVips(foreign, s, ks)[VipKey(s, s.ports[k]) := RowOf(s, s.ports[k])]
  {
  }

  /** One more foreign row. */
  lemma RowAdded(t: Table, foreign: Table, s: Service, nodeIp: string, ports: map<PortKey, ServicePort>, v: RowKey,
                 row: Row)
    requires Holds(t, foreign, s, nodeIp, ports) && v !in foreign && !Serves(s, nodeIp, ports, v)
    ensures Holds(t[v := row], foreign[v := row], s, nodeIp, ports)
  {
    hide Keys, RowOf;
  }

  /** The rows of a port that does not clash are none of the added VIP rows. */
  lemma NoVip(foreign: Table, s: Service, nodeIp: string, ks: set<PortKey>, k: PortKey)
    requires s.Keyed() && s.vip != nodeIp && k in s.ports && k !in ks
    requires forall r :: r in Keys(s, nodeIp, s.ports[k]) ==> r !in foreign
    ensures forall r :: r in Keys(s, nodeIp, s.ports[k]) ==> r !in WithVips(foreign, s, ks)
  {
  }

  /** Ports served by the same rows as other, distinct ones are distinct. */
  lemma SameRowsDistinct(s: Service, nodeIp: string, ports: map<PortKey, ServicePort>, all: map<PortKey, ServicePort>)
    requires Distinct(s, nodeIp, all)
    requires forall k :: k in ports ==> k in all && Keys(s, nodeIp, ports[k]) == Keys(s, nodeIp, all[k])
    ensures Distinct(s, nodeIp, ports)
  {
  }

  /** The rows of a new port are not there yet. */
  lemma NewRows(t: Table, foreign: Table, s: Service, nodeIp: string, ports: map<PortKey, ServicePort>, k: PortKey,
                p: ServicePort)
    requires k !in ports && Distinct(s, nodeIp, ports[k := p]) && Holds(t, foreign, s, nodeIp, ports)
    requires forall r :: r in Keys(s, nodeIp, p) ==> r !in foreign
    ensures Keys(s, nodeIp, p) !! t.Keys
  {
    var more := ports[k := p];
    assert forall j :: j in ports ==> more[j] == ports[j];
    assert more[k] == p;
  }

  lemma PortAdded(t: Table, t': Table, foreign: Table, s: Service, nodeIp: string,
                  ports: map<PortKey, ServicePort>, k: PortKey, p: ServicePort)
    requires k !in ports && Distinct(s, nodeIp, ports[k := p]) && Holds(t, foreign, s, nodeIp, ports)
    requires forall r :: r in Keys(s, nodeIp, p) ==> r !in foreign
    requires t'.Keys == t.Keys + Keys(s, nodeIp, p)
    requires forall r :: r in t' ==> t'[r] == if r in Keys(s, nodeIp, p) then RowOf(s, p) else t[r]
    ensures Holds(t', foreign, s, nodeIp, ports[k := p])
  {
    hide Keys, RowOf;
    var more := ports[k := p];
    forall j, r | j in more && r in Keys(s, nodeIp, more[j])
      ensures r in t' && t'[r] == RowOf(s, more[j]) && r !in foreign
    {
      assert j != k ==> Keys(s, nodeIp, more[j]) !! Keys(s, nodeIp, more[k]);
    }
    forall r | r in t' && r !in foreign ensures Serves(s, nodeIp, more, r) {
      if r in Keys(s, nodeIp, p) {
        assert k in more;
      } else {
        var j :| j in ports && r in Keys(s, nodeIp, ports[j]);
        assert j in more && more[j] == ports[j];
      }
    }
  }

  lemma PortDeleted(t: Table, t': Table, foreign: Table, s: Service, nodeIp: string,
                    ports: map<PortKey, ServicePort>, k: PortKey)
    requires k in ports && Distinct(s, nodeIp, ports) && Holds(t, foreign, s, nodeIp, ports)
    requires t' == t - Keys(s, nodeIp, ports[k])
    ensures Holds(t', foreign, s, nodeIp, ports - {k})
  {
    hide Keys, RowOf, Serves;
    var less := ports - {k};
    forall j, r | j in less && r in Keys(s, nodeIp, less[j])
      ensures r in t' && t'[r] == RowOf(s, less[j]) && r !in foreign
    {
      assert less[j] == ports[j] && r !in Keys(s, nodeIp, ports[k]);
    }
    forall r | r in t' && r !in foreign ensures Serves(s, nodeIp, less, r) {
      ServedByOther(s, nodeIp, ports, k, r);
    }
  }

  lemma ServedByOther(s: Service, nodeIp: string, ports: map<PortKey, ServicePort>, k: PortKey, r: RowKey)
    requires k in ports && Serves(s, nodeIp, ports, r) && r !in Keys(s, nodeIp, ports[k])
    ensures Serves(s, nodeIp, ports - {k}, r)
  {
    var j :| j in ports && r in Keys(s, nodeIp, ports[j]);
    assert j in ports - {k} && (ports - {k})[j] == ports[j];
  }

  /** A port's backends changed in all of its rows. */
  lemma PortRebacked(t: Table, t': Table, foreign: Table, s: Service, nodeIp: string,
                     ports: map<PortKey, ServicePort>, k: PortKey, q: ServicePort)
    requires k in ports && Distinct(s, nodeIp, ports) && Holds(t, foreign, s, nodeIp, ports)
    requires Keys(s, nodeIp, q) == Keys(s, nodeIp, ports[k]) && t'.Keys == t.Keys
    requires forall r :: r in t' && r in Keys(s, nodeIp, q) ==> t'[r] == RowOf(s, q)
    requires forall r :: r in t' && r !in Keys(s, nodeIp, q) ==> t'[r] == t[r]
    ensures Holds(t', foreign, s, nodeIp, ports[k := q]) && Distinct(s, nodeIp, ports[k := q])
  {
    hide Keys, RowOf;
    var ports' := ports[k := q];
    assert forall j :: j in ports ==> Keys(s, nodeIp, ports'[j]) == Keys(s, nodeIp, ports[j]);
    forall r | r in t' && r !in foreign ensures Serves(s, nodeIp, ports', r) {
      var j :| j in ports && r in Keys(s, nodeIp, ports[j]);
      assert j in ports' && r in Keys(s, nodeIp, ports'[j]);
    }
    forall j, r | j in ports' && r in Keys(s, nodeIp, ports'[j])
      ensures r in t' && t'[r] == RowOf(s, ports'[j]) && r !in foreign
    {
      assert j != k ==> Keys(s, nodeIp, ports[j]) !! Keys(s, nodeIp, ports[k]);
    }
  }

  /** The load balancer.  Creating what exists and deleting what does not are errors. */
  class K8switch {
    const nodeIp: string
    var table: Table

    method CreateService(k: RowKey, row: Row) returns (ok: bool)
      modifies this
      ensures ok <==> k !in old(table)
      ensures table == if ok then old(table)[k := row] else old(table)
    {
      ok := k !in table;
      if ok { table := table[k := row]; }
    }

    method DeleteService(k: RowKey) returns (ok: bool)
      modifies this
      ensures ok <==> k in old(table)
      ensures table == old(table) - {k}
    {
      ok := k in table;
      table := table - {k};
    }

    method CreateBackend(k: RowKey, b: Backend) returns (ok: bool)
      modifies this
      ensures ok <==> k in old(table) && b !in old(table)[k].backends
      ensures table == if ok then var row := old(table)[k]; old(table)[k := row.(backends := row.backends + {b})]
              else old(table)
    {
      ok := k in table && b !in table[k].backends;
      if ok { table := table[k := table[k].(backends := table[k].backends + {b})]; }
    }

    method DeleteBackend(k: RowKey, b: Backend) returns (ok: bool)
      modifies this
      ensures ok <==> k in old(table) && b in old(table)[k].backends
      ensures table == if ok then var row := old(table)[k]; old(table)[k := row.(backends := row.backends - {b})]
              else old(table)
    {
      ok := k in table && b in table[k].backends;
      if ok { table := table[k := table[k].(backends := table[k].backends - {b})]; }
    }

    method DelNodeServicePort(s: Service, p: ServicePort) returns (ok: bool)
      modifies this
      ensures ok <==> Keys(s, nodeIp, p) <= old(table).Keys && (s.OnNode() ==> VipKey(s, p) != NodeKey(nodeIp, p))
      ensures table == if VipKey(s, p) in old(table) then old(table) - Keys(s, nodeIp, p) else old(table)
    {
      ok := DeleteService(VipKey(s, p));
      if !ok { return; }
      if s.kind == "NodePort" {
        if s.policy == "Local" { return; }
        ok := DeleteService(NodeKey(nodeIp, p));
      }
    }

    /** Replaces whatever served the port before.  A node row without its VIP row is not
        deleted first, and so cannot be created. */
    method AddNodeServicePort(s: Service, p: ServicePort) returns (ok: bool)
      modifies this
      ensures ok <==> Addable(old(table), s, nodeIp, p)
      ensures var vip, node := RowKey(s.vip, p.port, p.proto), RowKey(nodeIp, p.nodeport, p.proto);
              var rows := if s.kind == "NodePort" && s.policy != "Local" then {vip, node} else {vip};
              && vip in table && table[vip] == Row(s.name, p.backends)
              && (ok ==> table.Keys == old(table).Keys + rows && forall r :: r in rows ==> table[r] == table[vip])
      ensures ok ==> table.Keys == old(table).Keys + Keys(s, nodeIp, p)
      ensures ok ==> forall r :: r in table ==>
                table[r] == if r in Keys(s, nodeIp, p) then RowOf(s, p) else old(table)[r]
      ensures !ok ==> table == old(table)[VipKey(s, p) := RowOf(s, p)]
    {
      var _ := DelNodeServicePort(s, p);
      ok := CreateService(VipKey(s, p), RowOf(s, p));
      if !ok { return; }
      if s.kind == "NodePort" {
        if s.policy == "Local" { return; }
        ok := CreateService(NodeKey(nodeIp, p), RowOf(s, p));
      }
    }

    method AddBackend(s: Service, p: ServicePort, b: Backend) returns (ok: bool)
      requires s.vip != nodeIp
      requires forall r :: r in Keys(s, nodeIp, p) ==> r in table && b !in table[r].backends
      modifies this
      ensures ok && table.Keys == old(table).Keys
      ensures forall r :: r in table && r in Keys(s, nodeIp, p) ==>
                table[r] == old(table)[r].(backends := old(table)[r].backends + {b})
      ensures forall r :: r in table && r !in Keys(s, nodeIp, p) ==> table[r] == old(table)[r]
    {
      ok := CreateBackend(VipKey(s, p), b);
      if !ok { return; }
      if s.kind == "NodePort" {
        if s.policy == "Local" { return; }
        ok := CreateBackend(NodeKey(nodeIp, p), b);
      }
    }

    method DelBackend(s: Service, p: ServicePort, b: Backend) returns (ok: bool)
      requires s.vip != nodeIp
      requires forall r :: r in Keys(s, nodeIp, p) ==> r in table && b in table[r].backends
      modifies this
      ensures ok && table.Keys == old(table).Keys
      ensures forall r :: r in table && r in Keys(s, nodeIp, p) ==>
                table[r] == old(table)[r].(backends := old(table)[r].backends - {b})
      ensures forall r :: r in table && r !in Keys(s, nodeIp, p) ==> table[r] == old(table)[r]
    {
      ok := DeleteBackend(VipKey(s, p), b);
      if !ok { return; }
      if s.kind == "NodePort" {
        if s.policy == "Local" { return; }
        ok := DeleteBackend(NodeKey(nodeIp, p), b);
      }
    }

    /** Adds all ports of a service, in any order, over any table. */
    method AddNodeService(s: Service) returns (ok: bool)
      requires Distinct(s, nodeIp, s.ports)
      modifies this
      ensures ok <==> forall k :: k in s.ports ==> Addable(old(table), s, nodeIp, s.ports[k])
      ensures ok ==> Overwrites(table, old(table), s, nodeIp, s.ports)
    {
      hide Keys, RowOf, Serves;
      ok := true;
      var left := s.ports.Keys;
      while left != {}
        invariant left <= s.ports.Keys
        invariant forall k :: k in s.ports && k !in left ==> Addable(old(table), s, nodeIp, s.ports[k])
        invariant ok && Overwrites(table, old(table), s, nodeIp, s.ports - left)
        decreases left
      {
        var k :| k in left;
        var t := table;
        SameAddable(table, old(table), s, nodeIp, left, k);
        ok := AddNodeServicePort(s, s.ports[k]);
        if !ok { return; }
        OverwritesOneMore(table, t, old(table), s, nodeIp, left, k);
        left := left - {k};
      }
      assert s.ports - left == s.ports;
    }

    /** Removes all ports of a service, in any order, as far as their VIP rows exist. */
    method DelNodeService(s: Service)
      requires Distinct(s, nodeIp, s.ports)
      modifies this
      ensures Without(table, old(table), s, nodeIp, s.ports)
    {
      hide Keys, Distinct, Deletes;
      assert Without(table, table, s, nodeIp, map[]) by { NoneDeleted(table, s, nodeIp); }
      var left := s.ports.Keys;
      assert s.ports - left == map[];
      while left != {}
        invariant left <= s.ports.Keys
        invariant Without(table, old(table), s, nodeIp, s.ports - left)
        decreases left
      {
        var k :| k in left;
        ghost var t := table;
        var _ := DelNodeServicePort(s, s.ports[k]);
        DeletesOneMore(table, t, old(table), s, nodeIp, left, k);
        left := left - {k};
      }
      assert s.ports - left == s.ports;
    }

    /** One more port. */
    method AddPort(s: Service, k: PortKey, p: ServicePort,
                   ghost foreign: Table, ghost ports: map<PortKey, ServicePort>) returns (ok: bool)
      requires s.vip != nodeIp && k !in ports && Distinct(s, nodeIp, ports[k := p]) &&
               Holds(table, foreign, s, nodeIp, ports)
      requires forall r :: r in Keys(s, nodeIp, p) ==> r !in foreign
      modifies this
      ensures ok && Holds(table, foreign, s, nodeIp, ports[k := p])
    {
      NewRows(table, foreign, s, nodeIp, ports, k, p);
      ok := AddNodeServicePort(s, p);
      PortAdded(old(table), table, foreign, s, nodeIp, ports, k, p);
    }

    method DelPort(s: Service, k: PortKey, p: ServicePort,
                   ghost foreign: Table, ghost ports: map<PortKey, ServicePort>) returns (ok: bool)
      requires s.vip != nodeIp && k in ports && ports[k] == p && Distinct(s, nodeIp, ports) &&
               Holds(table, foreign, s, nodeIp, ports)
      modifies this
      ensures ok && Holds(table, foreign, s, nodeIp, ports - {k})
    {
      ok := DelNodeServicePort(s, p);
      PortDeleted(old(table), table, foreign, s, nodeIp, ports, k);
    }

    /** One backend more or less for port k, whose rows are named by its old value p. */
    method ChangeBackend(s: Service, k: PortKey, p: ServicePort, b: Backend, adding: bool,
                         ghost foreign: Table, ghost ports: map<PortKey, ServicePort>)
      returns (ghost ports': map<PortKey, ServicePort>)
      requires s.vip != nodeIp && k in ports && Distinct(s, nodeIp, ports) && Holds(table, foreign, s, nodeIp, ports)
      requires Keys(s, nodeIp, p) == Keys(s, nodeIp, ports[k]) && (b in ports[k].backends <==> !adding)
      modifies this
      ensures ports' == ports[k := ports[k].(backends :=
                if adding then ports[k].backends + {b} else ports[k].backends - {b})]
      ensures Holds(table, foreign, s, nodeIp, ports') && Distinct(s, nodeIp, ports')
    {
      var ok;
      if adding {
        ok := AddBackend(s, p, b);
      } else {
        ok := DelBackend(s, p, b);
      }
      ghost var q := ports[k].(backends := if adding then ports[k].backends + {b} else ports[k].backends - {b});
      ports' := ports[k := q];
      PortRebacked(old(table), table, foreign, s, nodeIp, ports, k, q);
    }

    /** Changes the rows of port k by several backends, in any order. */
    method ChangeBackends(s: Service, k: PortKey, p: ServicePort, bs: set<Backend>, adding: bool,
                          ghost foreign: Table, ghost ports: map<PortKey, ServicePort>)
      returns (ghost ports': map<PortKey, ServicePort>)
      requires s.vip != nodeIp && k in ports && Distinct(s, nodeIp, ports) && Holds(table, foreign, s, nodeIp, ports)
      requires Keys(s, nodeIp, p) == Keys(s, nodeIp, ports[k])
      requires if adding then bs !! ports[k].backends else bs <= ports[k].backends
      modifies this
      ensures ports' == ports[k := ports[k].(backends :=
                if adding then ports[k].backends + bs else ports[k].backends - bs)]
      ensures Holds(table, foreign, s, nodeIp, ports') && Distinct(s, nodeIp, ports')
    {
      ghost var start := ports[k].backends;
      var left := bs;
      ports' := ports;
      while left != {}
        invariant left <= bs && k in ports' && Keys(s, nodeIp, p) == Keys(s, nodeIp, ports'[k])
        invariant ports' == ports[k := ports[k].(backends := ports'[k].backends)]
        invariant ports'[k].backends == if adding then start + (bs - left) else start - (bs - left)
        invariant Holds(table, foreign, s, nodeIp, ports') && Distinct(s, nodeIp, ports')
        decreases left
      {
        var b :| b in left;
        left := left - {b};
        ports' := ChangeBackend(s, k, p, b, adding, foreign, ports');
      }
      assert bs - left == bs;
    }

    /** Brings the backends of a kept port up to date. */
    method UpdateBackends(s: Service, k: PortKey, before: ServicePort, after: ServicePort,
                          ghost foreign: Table, ghost ports: map<PortKey, ServicePort>)
      returns (ghost ports': map<PortKey, ServicePort>)
      requires s.vip != nodeIp && k in ports && ports[k] == before && Distinct(s, nodeIp, ports) &&
               Holds(table, foreign, s, nodeIp, ports)
      modifies this
      ensures ports' == ports[k := before.(backends := after.backends)]
      ensures Holds(table, foreign, s, nodeIp, ports') && Distinct(s, nodeIp, ports')
    {
      var deleted, added := before.backends - after.backends, after.backends - before.backends;
      ports' := ChangeBackends(s, k, before, deleted, false, foreign, ports);
      ports' := ChangeBackends(s, k, before, added, true, foreign, ports');
      assert before.backends - deleted + added == after.backends;
    }

    /** Removes the ports that are gone. */
    method DeleteGone(before: Service, after: Service, ghost foreign: Table) returns (ok: bool)
      requires SameIdentity(before, after) && after.vip != nodeIp
      requires Distinct(after, nodeIp, before.ports) && Holds(table, foreign, after, nodeIp, before.ports)
      modifies this
      ensures ok && Holds(table, foreign, after, nodeIp,
              map k | k in before.ports && k in after.ports :: before.ports[k])
    {
      hide Holds, Distinct, Keys;
      ok := true;
      var left := before.ports.Keys - after.ports.Keys;
      ghost var cur := before.ports;
      while left != {}
        invariant left <= before.ports.Keys - after.ports.Keys
        invariant cur == map k | k in before.ports && (k in after.ports || k in left) :: before.ports[k]
        invariant ok && Holds(table, foreign, after, nodeIp, cur)
        decreases left
      {
        var k :| k in left;
        left := left - {k};
        SameRowsDistinct(after, nodeIp, cur, before.ports);
        ok := DelPort(after, k, before.ports[k], foreign, cur);
        cur := cur - {k};
      }
      assert cur == map k | k in before.ports && k in after.ports :: before.ports[k];
    }

    /** Adds the ports that are new, going on after errors: there is one for each port that
        clashes. */
    method AddNew(before: Service, after: Service, ghost foreign: Table,
                  ghost kept: map<PortKey, ServicePort>) returns (ok: bool)
      requires SameIdentity(before, after) && before.Keyed() && after.Keyed() && after.vip != nodeIp
      requires Distinct(after, nodeIp, Unchanged(before, after))
      requires kept == map k | k in before.ports && k in after.ports :: before.ports[k]
      requires forall k, r :: k in after.ports && r in Keys(after, nodeIp, after.ports[k]) ==> r !in foreign
      requires Holds(table, foreign, after, nodeIp, kept)
      modifies this
      ensures ok <==> Clashing(before, after) == {}
      ensures Holds(table, WithVips(foreign, after, Clashing(before, after)), after, nodeIp, Unchanged(before, after))
    {
      hide *;
      ok := true;
      var left := after.ports.Keys - before.ports.Keys;
      NoneAdded(before, after, foreign);
      while left != {}
        invariant left <= after.ports.Keys - before.ports.Keys
        invariant ok <==> Clashing(before, after) <= left
        invariant Holds(table, WithVips(foreign, after, Clashing(before, after) - left), after, nodeIp,
                        Added(before, after, left))
        decreases left
      {
        var k :| k in left;
        OneMoreAdded(before, after, left, k);
        var added := AddOne(before, after, k, foreign, Added(before, after, left), Clashing(before, after) - left);
        ok := ok && added;
        left := left - {k};
      }
      AllAdded(before, after);
    }

    method AddOne(before: Service, after: Service, k: PortKey, ghost foreign: Table,
                  ghost ports: map<PortKey, ServicePort>, ghost ks: set<PortKey>) returns (ok: bool)
      requires before.Keyed() && after.Keyed() && after.vip != nodeIp &&
               Distinct(after, nodeIp, Unchanged(before, after))
      requires k in after.ports && k !in before.ports && k !in ports && k !in ks && ports.Keys !! ks
      requires forall j :: j in ports ==> j in Unchanged(before, after) && ports[j] == Unchanged(before, after)[j]
      requires forall j :: j in before.ports && j in after.ports ==> j in ports
      requires forall r :: r in Keys(after, nodeIp, after.ports[k]) ==> r !in foreign
      requires Holds(table, WithVips(foreign, after, ks), after, nodeIp, ports)
      modifies this
      ensures ok <==> !Clashes(before, after, k)
      ensures ok ==> Holds(table, WithVips(foreign, after, ks), after, nodeIp, ports[k := after.ports[k]])
      ensures !ok ==> Holds(table, WithVips(foreign, after, ks + {k}), after, nodeIp, ports)
    {
      hide Holds, Distinct, Keys, Clashes, Addable;
      ghost var p := after.ports[k];
      if Clashes(before, after, k) {
        VipAdded(table, foreign, before, after, nodeIp, ports, ks, k);
      } else {
        NoVip(foreign, after, nodeIp, ks, k);
        SameRowsDistinct(after, nodeIp, ports[k := p], Unchanged(before, after));
        NewAddable(table, WithVips(foreign, after, ks), after, nodeIp, ports, k, p);
      }
      ghost var t := table;
      ok := AddNodeServicePort(after, after.ports[k]);
      if ok { PortAdded(t, table, WithVips(foreign, after, ks), after, nodeIp, ports, k, p); }
    }

    /** Updates the backends of the ports that stay. */
    method UpdateKept(before: Service, after: Service, ghost foreign: Table)
      requires SameIdentity(before, after) && after.vip != nodeIp && Distinct(after, nodeIp, Unchanged(before, after))
      requires Holds(table, foreign, after, nodeIp, Unchanged(before, after))
      modifies this
      ensures Holds(table, foreign, after, nodeIp, Served(before, after))
    {
      hide Holds, Distinct, Keys, Clashes;
      var left := before.ports.Keys * after.ports.Keys;
      ghost var cur, served := Unchanged(before, after), Served(before, after);
      assert forall k :: k in left ==> k in served by { KeptIsServed(before, after); }
      while left != {}
        invariant left <= before.ports.Keys * after.ports.Keys && left <= served.Keys && cur.Keys == served.Keys
        invariant forall k :: k in served ==> cur[k] == if k in left then before.ports[k] else served[k]
        invariant Holds(table, foreign, after, nodeIp, cur) && Distinct(after, nodeIp, cur)
        decreases left
      {
        var k :| k in left;
        left := left - {k};
        cur := UpdateBackends(after, k, before.ports[k], after.ports[k], foreign, cur);
      }
      assert cur == served;
    }

    /** An update from one version of a service to the next: ports that are gone, ports
        that are new, and then the backends of the others. */
    method UpdateService(before: Service, after: Service, ghost foreign: Table) returns (ok: bool)
      requires SameIdentity(before, after) && before.Keyed() && after.Keyed() && after.vip != nodeIp
      requires Distinct(after, nodeIp, before.ports) && Distinct(after, nodeIp, after.ports - before.ports.Keys)
      requires forall k, r :: k in after.ports && r in Keys(after, nodeIp, after.ports[k]) ==> r !in foreign
      requires Holds(table, foreign, before, nodeIp, before.ports)
      modifies this
      ensures ok <==> Clashing(before, after) == {}
      ensures Holds(table, WithVips(foreign, after, Clashing(before, after)), after, nodeIp, Served(before, after))
    {
      hide Holds, Distinct, Keys, Clashes;
      SameServiceHolds(table, foreign, before, after, nodeIp, before.ports);
      ServedDistinct(before, after, nodeIp);
      ok := DeleteGone(before, after, foreign);
      ok := AddNew(before, after, foreign, map k | k in before.ports && k in after.ports :: before.ports[k]);
      UpdateKept(before, after, WithVips(foreign, after, Clashing(before, after)));
    }
  }

  /** The ports served while some of the new ones are still to be added. */
  ghost function Added(before: Service, after: Service, left: set<PortKey>): map<PortKey, ServicePort> {
    Unchanged(before, after) - left
  }

  lemma NoneAdded(before: Service, after: Service, foreign: Table)
    requires after.Keyed()
    ensures var left := after.ports.Keys - before.ports.Keys;
            && Clashing(before, after) <= left && WithVips(foreign, after, Clashing(before, after) - left) == foreign
            && Added(before, after, left) == map k | k in before.ports && k in after.ports :: before.ports[k]
  {
    assert Clashing(before, after) - (after.ports.Keys - before.ports.Keys) == {};
    NoVips(foreign, after);
  }

  lemma OneMoreAdded(before: Service, after: Service, left: set<PortKey>, k: PortKey)
    requires k in left && left <= after.ports.Keys - before.ports.Keys
    ensures k in after.ports && k !in before.ports && k !in Added(before, after, left)
    ensures Added(before, after, left).Keys !! Clashing(before, after) - left && k !in Clashing(before, after) - left
    ensures forall j :: j in Added(before, after, left) ==>
              j in Unchanged(before, after) && Added(before, after, left)[j] == Unchanged(before, after)[j]
    ensures forall j :: j in before.ports && j in after.ports ==> j in Added(before, after, left)
    ensures k in Clashing(before, after) <==> Clashes(before, after, k)
    ensures if Clashes(before, after, k)
            then Added(before, after, left - {k}) == Added(before, after, left)
                 && Clashing(before, after) - (left - {k}) == Clashing(before, after) - left + {k}
            else Added(before, after, left - {k}) == Added(before, after, left)[k := after.ports[k]]
                 && Clashing(before, after) - (left - {k}) == Clashing(before, after) - left
  {
  }

  lemma AllAdded(before: Service, after: Service)
    ensures Added(before, after, {}) == Unchanged(before, after) &&
            Clashing(before, after) - {} == Clashing(before, after)
    ensures Clashing(before, after) <= {} <==> Clashing(before, after) == {}
  {
  }

  lemma KeptIsServed(before: Service, after: Service)
    ensures forall k :: k in before.ports && k in after.ports ==> k in Served(before, after)
  {
  }

  lemma NewAddable(t: Table, foreign: Table, s: Service, nodeIp: string, ports: map<PortKey, ServicePort>,
                   k: PortKey, p: ServicePort)
    requires s.vip != nodeIp && k !in ports && Distinct(s, nodeIp, ports[k := p]) && Holds(t, foreign, s, nodeIp, ports)
    requires forall r :: r in Keys(s, nodeIp, p) ==> r !in foreign
    ensures Addable(t, s, nodeIp, p)
  {
    hide Holds, Distinct;
    NewRows(t, foreign, s, nodeIp, ports, k, p);
  }

  lemma SameServiceHolds(t: Table, foreign: Table, a: Service, b: Service, nodeIp: string,
                         ports: map<PortKey, ServicePort>)
    requires SameIdentity(a, b) && Holds(t, foreign, a, nodeIp, ports)
    ensures Holds(t, foreign, b, nodeIp, ports)
  {
  }

  /** The node row of a port is also that of one of the given ports, with the same backends. */
  ghost predicate HasNodeRow(ports: map<PortKey, ServicePort>, p: ServicePort) {
    exists k :: k in ports && ports[k].nodeport == p.nodeport && ports[k].proto == p.proto &&
      ports[k].backends == p.backends
  }

  ghost predicate SameNodeRows(a: map<PortKey, ServicePort>, b: map<PortKey, ServicePort>) {
    && (forall k :: k in a ==> HasNodeRow(b, a[k]))
    && (forall k :: k in b ==> HasNodeRow(a, b[k]))
  }

  /** The table after an update is the one that adding the new version afresh gives exactly
      when, as far as node ports are served, the ports served and those of the new version
      name the same node ports with the same backends.  It never is if a new port clashes. */
  lemma UpdateIsFresh(updated: Table, fresh': Table, foreign: Table, before: Service, after: Service, nodeIp: string)
    requires before.Keyed() && after.Keyed() && after.vip != nodeIp
    requires Holds(updated, WithVips(foreign, after, Clashing(before, after)), after, nodeIp, Served(before, after))
    requires Holds(fresh', foreign, after, nodeIp, after.ports)
    ensures updated == fresh' <==> (after.OnNode() ==> SameNodeRows(Served(before, after), after.ports))
    ensures Clashing(before, after) != {} && Distinct(after, nodeIp, after.ports) ==> updated != fresh'
  {
    hide Holds, HasNodeRow, Clashing, Served, WithVips, Distinct, HasVipRow;
    var ports, more := Served(before, after), WithVips(foreign, after, Clashing(before, after));
    VipRows(updated, fresh', foreign, before, after, nodeIp);
    ForeignRows(updated, fresh', foreign, before, after, nodeIp);
    if after.OnNode() ==> SameNodeRows(ports, after.ports) {
      RowsServedToo(updated, fresh', more, foreign, after, nodeIp, ports, after.ports);
      RowsServedToo(fresh', updated, foreign, more, after, nodeIp, after.ports, ports);
    }
    if updated == fresh' && after.OnNode() {
      NodeRowsServedToo(updated, more, foreign, after, nodeIp, ports, after.ports);
      NodeRowsServedToo(updated, foreign, more, after, nodeIp, after.ports, ports);
      if Distinct(after, nodeIp, after.ports) { NoneClashes(before, after, nodeIp); }
    }
    if Clashing(before, after) != {} { ClashesOnNode(before, after); }
  }

  lemma ClashesOnNode(before: Service, after: Service)
    requires Clashing(before, after) != {}
    ensures after.OnNode()
  {
  }

  /** Each table has the VIP rows that the other one is expected to have. */
  lemma VipRows(updated: Table, fresh': Table, foreign: Table, before: Service, after: Service, nodeIp: string)
    requires before.Keyed() && after.Keyed() && after.vip != nodeIp
    requires Holds(updated, WithVips(foreign, after, Clashing(before, after)), after, nodeIp, Served(before, after))
    requires Holds(fresh', foreign, after, nodeIp, after.ports)
    ensures forall k :: k in after.ports ==> HasVipRow(updated, after, after.ports[k])
    ensures forall k :: k in Served(before, after) ==> HasVipRow(fresh', after, Served(before, after)[k])
  {
    hide Clashing, Holds, HasVipRow, Served, Merged, WithVips;
    var ports, more := Served(before, after), WithVips(foreign, after, Clashing(before, after));
    ServedKeys(before, after);
    ServedVips(before, after);
    forall k | k in after.ports ensures HasVipRow(updated, after, after.ports[k]) {
      if k in Clashing(before, after) {
        AddedVip(updated, foreign, after, nodeIp, ports, Clashing(before, after), k);
      } else {
        PortVip(updated, more, after, nodeIp, ports, k);
        SameVip(updated, after, ports[k], after.ports[k]);
      }
    }
    forall k | k in ports ensures HasVipRow(fresh', after, ports[k]) {
      PortVip(fresh', foreign, after, nodeIp, after.ports, k);
      SameVip(fresh', after, after.ports[k], ports[k]);
    }
  }

  lemma PortVip(t: Table, foreign: Table, s: Service, nodeIp: string, ports: map<PortKey, ServicePort>, k: PortKey)
    requires Holds(t, foreign, s, nodeIp, ports) && k in ports
    ensures HasVipRow(t, s, ports[k])
  {
    VipIsKey(s, nodeIp, ports[k]);
  }

  lemma AddedVip(t: Table, foreign: Table, s: Service, nodeIp: string, ports: map<PortKey, ServicePort>,
                 ks: set<PortKey>, k: PortKey)
    requires s.Keyed() && Holds(t, WithVips(foreign, s, ks), s, nodeIp, ports) && k in ks && k in s.ports
    ensures HasVipRow(t, s, s.ports[k])
  {
    hide Keys, Serves, RowOf;
    assert VipKey(s, s.ports[k]) in WithVips(foreign, s, ks);
  }

  lemma SameVip(t: Table, s: Service, p: ServicePort, q: ServicePort)
    requires HasVipRow(t, s, p) && VipKey(s, p) == VipKey(s, q) && p.backends == q.backends
    ensures HasVipRow(t, s, q)
  {
  }

  lemma ForeignRows(updated: Table, fresh': Table, foreign: Table, before: Service, after: Service, nodeIp: string)
    requires before.Keyed() && after.Keyed()
    requires Holds(updated, WithVips(foreign, after, Clashing(before, after)), after, nodeIp, Served(before, after))
    requires Holds(fresh', foreign, after, nodeIp, after.ports)
    ensures var more := WithVips(foreign, after, Clashing(before, after));
            && (forall r :: r in more ==> r in fresh' && fresh'[r] == more[r])
            && (forall r :: r in foreign ==> r in updated && updated[r] == foreign[r])
            && (forall r :: r in foreign ==> r in more)
            && (forall r :: r in more && r !in foreign ==> r.ip == after.vip)
  {
    hide Clashes, Serves, Keys, Served;
    var more := WithVips(foreign, after, Clashing(before, after));
    forall k | k in after.ports
      ensures VipKey(after, after.ports[k]) !in foreign && HasVipRow(fresh', after, after.ports[k])
    {
      VipIsKey(after, nodeIp, after.ports[k]);
    }
    assert forall r :: r in foreign ==> r in more && more[r] == foreign[r];
  }

  ghost predicate HasVipRow(t: Table, s: Service, p: ServicePort) {
    VipKey(s, p) in t && t[VipKey(s, p)] == RowOf(s, p)
  }

  /** A table holds all rows of another if it has its foreign rows, the VIP rows of its
      ports, and the same node rows. */
  lemma RowsServedToo(t: Table, t': Table, foreign: Table, foreign': Table, s: Service, nodeIp: string,
                      ports: map<PortKey, ServicePort>, ports': map<PortKey, ServicePort>)
    requires Holds(t, foreign, s, nodeIp, ports) && Holds(t', foreign', s, nodeIp, ports')
    requires forall r :: r in foreign ==> r in t' && t'[r] == foreign[r]
    requires forall k :: k in ports ==> HasVipRow(t', s, ports[k])
    requires s.OnNode() ==> forall k :: k in ports ==> HasNodeRow(ports', ports[k])
    ensures forall r :: r in t ==> r in t' && t[r] == t'[r]
  {
    hide Serves, HasNodeRow;
    forall r | r in t && r !in foreign ensures r in t' && t[r] == t'[r] {
      var k := ServedBy(t, foreign, s, nodeIp, ports, r);
      if r != VipKey(s, ports[k]) {
        var j := NodeRowOf(ports', ports[k]);
        assert r == NodeKey(nodeIp, ports'[j]) && r in Keys(s, nodeIp, ports'[j]);
      }
    }
  }

  ghost function NodeRowOf(ports: map<PortKey, ServicePort>, p: ServicePort): (k: PortKey)
    requires HasNodeRow(ports, p)
    ensures k in ports && ports[k].nodeport == p.nodeport && ports[k].proto == p.proto &&
            ports[k].backends == p.backends
  {
    var k :| k in ports && ports[k].nodeport == p.nodeport && ports[k].proto == p.proto &&
      ports[k].backends == p.backends;
    k
  }

  lemma NodeRowsServedToo(t: Table, foreign: Table, foreign': Table, s: Service, nodeIp: string,
                          ports: map<PortKey, ServicePort>, ports': map<PortKey, ServicePort>)
    requires Holds(t, foreign, s, nodeIp, ports) && Holds(t, foreign', s, nodeIp, ports')
    requires s.vip != nodeIp && s.OnNode() && forall r :: r in foreign' ==> r in foreign || r.ip == s.vip
    ensures forall k :: k in ports ==> HasNodeRow(ports', ports[k])
  {
    hide Serves;
    forall k | k in ports ensures HasNodeRow(ports', ports[k]) {
      var r := NodeKey(nodeIp, ports[k]);
      assert r in Keys(s, nodeIp, ports[k]);
      var j := ServedBy(t, foreign', s, nodeIp, ports', r);
      assert r == NodeKey(nodeIp, ports'[j]) && t[r] == RowOf(s, ports'[j]);
    }
  }

  /** There are not enough node rows for all ports if one clashes. */
  lemma NoneClashes(before: Service, after: Service, nodeIp: string)
    requires Distinct(after, nodeIp, after.ports) && after.OnNode()
    requires forall k :: k in after.ports ==> HasNodeRow(Served(before, after), after.ports[k])
    ensures Clashing(before, after) == {}
  {
    hide HasNodeRow, Clashing, Served, Distinct;
    var all, clashing := after.ports.Keys, Clashing(before, after);
    AsManyNodeRows(Served(before, after), after, nodeIp);
    ServedKeys(before, after);
    assert all == all - clashing + clashing;
  }

  lemma AsManyNodeRows(ports: map<PortKey, ServicePort>, s: Service, nodeIp: string)
    requires Distinct(s, nodeIp, s.ports) && s.OnNode() && forall k :: k in s.ports ==> HasNodeRow(ports, s.ports[k])
    ensures |s.ports.Keys| <= |ports.Keys|
  {
    hide HasNodeRow, Distinct, Partners;
    NodePortsDiffer(s, nodeIp);
    Pigeonhole(Partners(ports, s.ports), ports.Keys);
  }

  /** For each port one with the same node row. */
  ghost function Partners(ports: map<PortKey, ServicePort>, all: map<PortKey, ServicePort>): (f: map<PortKey, PortKey>)
    requires forall k :: k in all ==> HasNodeRow(ports, all[k])
    ensures f.Keys == all.Keys
    ensures forall k :: k in all ==>
              f[k] in ports && ports[f[k]].nodeport == all[k].nodeport && ports[f[k]].proto == all[k].proto
  {
    map k | k in all :: NodeRowOf(ports, all[k])
  }

  lemma ServedKeys(before: Service, after: Service)
    ensures Served(before, after).Keys == after.ports.Keys - Clashing(before, after)
    ensures Clashing(before, after) <= after.ports.Keys == Merged(before, after).Keys
    ensures forall k :: k in Served(before, after) ==> Served(before, after)[k] == Merged(before, after)[k]
  {
  }

  lemma NodePortsDiffer(s: Service, nodeIp: string)
    requires Distinct(s, nodeIp, s.ports) && s.OnNode()
    ensures forall j, k :: j in s.ports && k in s.ports && j != k ==>
              s.ports[j].nodeport != s.ports[k].nodeport || s.ports[j].proto != s.ports[k].proto
  {
    forall j, k | j in s.ports && k in s.ports && j != k && s.ports[j].proto == s.ports[k].proto
      ensures s.ports[j].nodeport != s.ports[k].nodeport
    {
      assert NodeKey(nodeIp, s.ports[j]) in Keys(s, nodeIp, s.ports[j]);
      assert NodeKey(nodeIp, s.ports[k]) in Keys(s, nodeIp, s.ports[k]);
    }
  }

  lemma {:induction false} Pigeonhole(f: map<PortKey, PortKey>, b: set<PortKey>)
    requires forall k :: k in f ==> f[k] in b
    requires forall j, k :: j in f && k in f && j != k ==> f[j] != f[k]
    ensures |f.Keys| <= |b|
    decreases |f.Keys|
  {
    if f != map[] {
      var k :| k in f;
      assert (f - {k}).Keys == f.Keys - {k};
      Pigeonhole(f - {k}, b - {f[k]});
    }
  }

  /** Two kept ports that exchange their node ports: the update gives the fresh table only if
      they also have the same backends. */
  lemma SwappedNodePorts(bs: set<Backend>, bs': set<Backend>, x: int, y: int)
    requires x != y
    ensures var before, after := TwoPorts(x, bs, y, bs'), TwoPorts(y, bs, x, bs');
            Clashing(before, after) == {} && (SameNodeRows(Served(before, after), after.ports) <==> bs == bs')
  {
    var j, k := PortKey(80, "TCP"), PortKey(81, "TCP");
    var before, after := TwoPorts(x, bs, y, bs'), TwoPorts(y, bs, x, bs');
    var ports := Served(before, after);
    assert j != k && after.ports.Keys == before.ports.Keys == {j, k} && Clashing(before, after) == {};
    assert ports[j] == before.ports[j] && ports[k] == before.ports[k];
    assert HasNodeRow(after.ports, ports[j]) <==> bs == bs';
  }

  /** Their tables differ exactly then. */
  lemma SwappedTables(bs: set<Backend>, bs': set<Backend>, x: int, y: int,
                      updated: Table, fresh': Table, foreign: Table, nodeIp: string)
    requires x != y && nodeIp != "10.0.0.1"
    requires var before, after := TwoPorts(x, bs, y, bs'), TwoPorts(y, bs, x, bs');
             Holds(updated, foreign, after, nodeIp, Served(before, after)) &&
               Holds(fresh', foreign, after, nodeIp, after.ports)
    ensures updated == fresh' <==> bs == bs'
  {
    hide Holds, SameNodeRows, Clashing, Served, WithVips;
    var before, after := TwoPorts(x, bs, y, bs'), TwoPorts(y, bs, x, bs');
    SwappedNodePorts(bs, bs', x, y);
    NoVips(foreign, after);
    UpdateIsFresh(updated, fresh', foreign, before, after, nodeIp);
  }

  /** A new port takes the node port that a kept port gives up: its node row is missing. */
  lemma TakenNodePort(bs: set<Backend>, bs': set<Backend>, x: int, y: int)
    requires x != y
    ensures var before := OnePort(x, bs);
            Clashing(before, TwoPorts(y, bs, x, bs')) == {PortKey(81, "TCP")}
  {
    var before, after := OnePort(x, bs), TwoPorts(y, bs, x, bs');
    var j, k := PortKey(80, "TCP"), PortKey(81, "TCP");
    assert j in before.ports && j in after.ports && k in after.ports && j != k;
    assert before.ports[j].nodeport == after.ports[k].nodeport == x;
    assert Clashes(before, after, k);
  }

  function OnePort(x: int, bs: set<Backend>): Service {
    Service("web", "NodePort", "10.0.0.1", "Cluster", map[PortKey(80, "TCP") := ServicePort(80, "TCP", x, bs)])
  }

  function TwoPorts(x: int, bs: set<Backend>, y: int, bs': set<Backend>): Service {
    Service("web", "NodePort", "10.0.0.1", "Cluster",
            map[PortKey(80, "TCP") := ServicePort(80, "TCP", x, bs),
              PortKey(81, "TCP") := ServicePort(81, "TCP", y, bs')])
  }

  ghost predicate HasNodePort(ports: map<PortKey, ServicePort>, p: ServicePort) {
    exists k :: k in ports && ports[k].nodeport == p.nodeport && ports[k].proto == p.proto
  }

  /** Deleting the service after the update leaves nothing behind exactly when every node
      port still served is one of the new version's. */
  lemma DeletedAfterUpdate(t: Table, updated: Table, foreign: Table, before: Service, after: Service, nodeIp: string)
    requires before.Keyed() && after.Keyed() && after.vip != nodeIp
    requires Holds(updated, WithVips(foreign, after, Clashing(before, after)), after, nodeIp, Served(before, after))
    requires forall k, r :: k in after.ports && r in Keys(after, nodeIp, after.ports[k]) ==> r !in foreign
    requires Without(t, updated, after, nodeIp, after.ports)
    ensures t == foreign
       <==> (after.OnNode() ==> forall k :: k in after.ports ==> HasNodePort(after.ports, Merged(before, after)[k]))
  {
    hide Holds, Deletes, Keys, HasNodePort, Clashing, Served, Merged, WithVips;
    var ports, clashing := Served(before, after), Clashing(before, after);
    var more := WithVips(foreign, after, clashing);
    ForeignStays(updated, foreign, before, after, nodeIp);
    ServedKeys(before, after);
    ServedVips(before, after);
    forall k | k in clashing ensures HasNodePort(after.ports, Merged(before, after)[k]) {
      ClashingIsOwn(before, after, k);
    }
    if after.OnNode() ==> forall k :: k in after.ports ==> HasNodePort(after.ports, Merged(before, after)[k]) {
      VipsDeleted(updated, foreign, before, after, nodeIp);
      RowsDeleted(updated, more, after, nodeIp, ports);
    }
    if t == foreign && after.OnNode() {
      NodeRowsDeleted(updated, foreign, more, after, nodeIp, ports);
    }
  }

  lemma ServedVips(before: Service, after: Service)
    requires before.Keyed() && after.Keyed()
    ensures forall k :: k in Served(before, after) ==>
              k in after.ports && VipKey(after, Served(before, after)[k]) == VipKey(after, after.ports[k])
              && Served(before, after)[k].backends == after.ports[k].backends
  {
  }

  lemma ClashingIsOwn(before: Service, after: Service, k: PortKey)
    requires k in Clashing(before, after)
    ensures k in Merged(before, after) && HasNodePort(after.ports, Merged(before, after)[k])
  {
    assert Merged(before, after)[k] == after.ports[k];
  }

  lemma ForeignStays(t: Table, foreign: Table, before: Service, after: Service, nodeIp: string)
    requires after.Keyed()
    requires Holds(t, WithVips(foreign, after, Clashing(before, after)), after, nodeIp, Served(before, after))
    requires forall k, r :: k in after.ports && r in Keys(after, nodeIp, after.ports[k]) ==> r !in foreign
    ensures forall r :: r in foreign ==> r in t && t[r] == foreign[r] && !Deletes(t, after, nodeIp, after.ports, r)
    ensures forall r :: r in foreign ==> r in WithVips(foreign, after, Clashing(before, after))
  {
    hide Keys, RowOf, Serves, Clashes;
    var more := WithVips(foreign, after, Clashing(before, after));
    forall k | k in after.ports ensures VipKey(after, after.ports[k]) !in foreign {
      VipIsKey(after, nodeIp, after.ports[k]);
    }
    assert forall r :: r in foreign ==> r in more && more[r] == foreign[r];
  }

  /** Every port's VIP row is there, so the added VIP rows are deleted. */
  lemma VipsDeleted(t: Table, foreign: Table, before: Service, after: Service, nodeIp: string)
    requires before.Keyed() && after.Keyed()
    requires Holds(t, WithVips(foreign, after, Clashing(before, after)), after, nodeIp, Served(before, after))
    ensures forall k :: k in after.ports ==> VipKey(after, after.ports[k]) in t
    ensures forall r :: r in WithVips(foreign, after, Clashing(before, after)) && r !in foreign ==>
              Deletes(t, after, nodeIp, after.ports, r)
  {
    hide RowOf, Serves, Clashes;
    var ports, clashing := Served(before, after), Clashing(before, after);
    var more := WithVips(foreign, after, clashing);
    forall k | k in after.ports ensures VipKey(after, after.ports[k]) in t {
      if k in clashing {
        assert VipKey(after, after.ports[k]) in more;
      } else {
        assert VipKey(after, ports[k]) in Keys(after, nodeIp, ports[k]);
      }
    }
    forall r | r in more && r !in foreign ensures Deletes(t, after, nodeIp, after.ports, r) {
      var k :| k in clashing && r == VipKey(after, after.ports[k]);
      assert r in Keys(after, nodeIp, after.ports[k]);
    }
  }

  lemma RowsDeleted(t: Table, foreign: Table, s: Service, nodeIp: string, ports: map<PortKey, ServicePort>)
    requires Holds(t, foreign, s, nodeIp, ports) && ports.Keys <= s.ports.Keys
    requires forall k :: k in s.ports ==> VipKey(s, s.ports[k]) in t
    requires forall k :: k in ports ==> VipKey(s, ports[k]) == VipKey(s, s.ports[k])
    requires s.OnNode() ==> forall k :: k in ports ==> HasNodePort(s.ports, ports[k])
    ensures forall r :: r in t && r !in foreign ==> Deletes(t, s, nodeIp, s.ports, r)
  {
    hide RowOf, Serves, HasNodePort;
    forall r | r in t && r !in foreign ensures Deletes(t, s, nodeIp, s.ports, r) {
      var k := ServedBy(t, foreign, s, nodeIp, ports, r);
      if r != VipKey(s, ports[k]) {
        k := NodePortOf(s, ports[k]);
      }
      assert r in Keys(s, nodeIp, s.ports[k]);
    }
  }

  lemma ServedBy(t: Table, foreign: Table, s: Service, nodeIp: string, ports: map<PortKey, ServicePort>, r: RowKey)
    returns (k: PortKey)
    requires Holds(t, foreign, s, nodeIp, ports) && r in t && r !in foreign
    ensures k in ports && r in Keys(s, nodeIp, ports[k])
  {
    hide Keys, RowOf;
    k :| k in ports && r in Keys(s, nodeIp, ports[k]);
  }

  lemma NodePortOf(s: Service, p: ServicePort) returns (k: PortKey)
    requires HasNodePort(s.ports, p)
    ensures k in s.ports && s.ports[k].nodeport == p.nodeport && s.ports[k].proto == p.proto
  {
    k :| k in s.ports && s.ports[k].nodeport == p.nodeport && s.ports[k].proto == p.proto;
  }

  lemma NodeRowsDeleted(t: Table, foreign: Table, foreign': Table, s: Service, nodeIp: string,
                        ports: map<PortKey, ServicePort>)
    requires Holds(t, foreign', s, nodeIp, ports) && s.OnNode() && s.vip != nodeIp
    requires forall r :: r in foreign ==> r in foreign'
    requires forall r :: r in t && r !in foreign ==> Deletes(t, s, nodeIp, s.ports, r)
    ensures forall k :: k in ports ==> HasNodePort(s.ports, ports[k])
  {
    hide Serves;
    forall k | k in ports ensures HasNodePort(s.ports, ports[k]) {
      var r := NodeKey(nodeIp, ports[k]);
      assert r in Keys(s, nodeIp, ports[k]);
      assert Deletes(t, s, nodeIp, s.ports, r);
    }
  }

  // ------------------------------------------------------------- parsing

  datatype EndpointPort = EndpointPort(name: string, port: int)

  /** Addresses that all serve the same ports. */
  datatype Subset = Subset(addresses: set<string>, ports: set<EndpointPort>)

  predicate PortMatches(name: string, p: EndpointPort) {
    name == "" || name == p.name
  }

  /** The ports of a subset that a service port stands for. */
  function Matching(subset: Subset, name: string): set<int> {
    set p | p in subset.ports && PortMatches(name, p) :: p.port
  }

  /** The backends of a service port: every address of any subset with every matching
      port of any subset. */
  method ParseBackends(name: string, subsets: seq<Subset>) returns (backends: set<Backend>)
    ensures forall b :: b in backends <==> HasAddress(subsets, b.ip) && HasPort(subsets, name, b.port)
    ensures forall b :: b in backends <==>
              (exists i :: 0 <= i < |subsets| && b.ip in subsets[i].addresses)
              && (exists i, p :: 0 <= i < |subsets| && p in subsets[i].ports && p.port == b.port
                                 && (name == "" || p.name == name))
  {
    var addresses, ports := {}, {};
    for i := 0 to |subsets|
      invariant forall a :: a in addresses <==> HasAddress(subsets[..i], a)
      invariant forall p :: p in ports <==> HasPort(subsets[..i], name, p)
    {
      assert subsets[..i+1] == subsets[..i] + [subsets[i]];
      addresses := addresses + subsets[i].addresses;
      ports := ports + Matching(subsets[i], name);
    }
    assert subsets[..|subsets|] == subsets;
    backends := set a, p | a in addresses && p in ports :: Backend(a, p);
  }

  ghost predicate HasAddress(subsets: seq<Subset>, a: string) {
    exists i :: 0 <= i < |subsets| && a in subsets[i].addresses
  }

  ghost predicate HasPort(subsets: seq<Subset>, name: string, port: int) {
    exists i :: 0 <= i < |subsets| && port in Matching(subsets[i], name)
  }

  /** An address that really serves a port: both are of one subset. */
  ghost predicate Real(subsets: seq<Subset>, name: string, b: Backend) {
    exists i :: 0 <= i < |subsets| && b.ip in subsets[i].addresses && b.port in Matching(subsets[i], name)
  }

  /** All matching ports that an address serves, in any subset. */
  function PortsOf(subsets: seq<Subset>, name: string, a: string): set<int> {
    if subsets == [] then {}
    else (if a in subsets[0].addresses then Matching(subsets[0], name) else {}) + PortsOf(subsets[1..], name, a)
  }

  lemma {:induction false} PortsOfAreReal(subsets: seq<Subset>, name: string, a: string, p: int)
    ensures p in PortsOf(subsets, name, a) <==> Real(subsets, name, Backend(a, p))
  {
    if subsets != [] {
      PortsOfAreReal(subsets[1..], name, a, p);
      assert Real(subsets[1..], name, Backend(a, p)) ==> Real(subsets, name, Backend(a, p));
      assert forall i :: 1 <= i < |subsets| ==> subsets[i] == subsets[1..][i - 1];
    }
  }

  ghost predicate OnlyReal(subsets: seq<Subset>, name: string, backends: set<Backend>) {
    forall b :: b in backends ==> Real(subsets, name, b)
  }

  /** Every address serves the matching ports of every subset. */
  ghost predicate ServesAll(subsets: seq<Subset>, name: string) {
    forall i, j, a :: 0 <= i < |subsets| && 0 <= j < |subsets| && a in subsets[i].addresses ==>
      Matching(subsets[j], name) <= PortsOf(subsets, name, a)
  }

  /** Every subset with an address has the matching ports of every subset. */
  ghost predicate SamePorts(subsets: seq<Subset>, name: string) {
    forall i, j :: 0 <= i < |subsets| && 0 <= j < |subsets| && subsets[i].addresses != {} ==>
      Matching(subsets[j], name) <= Matching(subsets[i], name)
  }

  /** No real backend is missed.  None is invented exactly when every address serves the
      matching ports of all subsets. */
  lemma ParsedBackends(name: string, subsets: seq<Subset>, backends: set<Backend>)
    requires forall b :: b in backends <==> HasAddress(subsets, b.ip) && HasPort(subsets, name, b.port)
    ensures forall b :: Real(subsets, name, b) ==> b in backends
    ensures OnlyReal(subsets, name, backends) <==> ServesAll(subsets, name)
  {
    hide Matching, PortsOf, Real;
    forall b | Real(subsets, name, b) ensures b in backends {
      RealIsPaired(subsets, name, b);
    }
    if OnlyReal(subsets, name, backends) {
      forall i, j, a | 0 <= i < |subsets| && 0 <= j < |subsets| && a in subsets[i].addresses
        ensures Matching(subsets[j], name) <= PortsOf(subsets, name, a)
      {
        forall p | p in Matching(subsets[j], name) ensures p in PortsOf(subsets, name, a) {
          assert HasAddress(subsets, a) && HasPort(subsets, name, p) && Backend(a, p) in backends;
          PortsOfAreReal(subsets, name, a, p);
        }
      }
    }
    if ServesAll(subsets, name) {
      forall b | b in backends ensures Real(subsets, name, b) {
        var i, j := Indexes(subsets, name, b);
        assert Matching(subsets[j], name) <= PortsOf(subsets, name, b.ip);
        PortsOfAreReal(subsets, name, b.ip, b.port);
      }
    }
  }

  lemma RealIsPaired(subsets: seq<Subset>, name: string, b: Backend)
    requires Real(subsets, name, b)
    ensures HasAddress(subsets, b.ip) && HasPort(subsets, name, b.port)
  {
    hide Matching;
  }

  lemma Indexes(subsets: seq<Subset>, name: string, b: Backend) returns (i: nat, j: nat)
    requires HasAddress(subsets, b.ip) && HasPort(subsets, name, b.port)
    ensures i < |subsets| && b.ip in subsets[i].addresses
    ensures j < |subsets| && b.port in Matching(subsets[j], name)
  {
    i :| 0 <= i < |subsets| && b.ip in subsets[i].addresses;
    j :| 0 <= j < |subsets| && b.port in Matching(subsets[j], name);
  }

  /** When the subsets share no address: exactly when each that has one serves the matching
      ports of all others. */
  lemma ParsedDisjoint(name: string, subsets: seq<Subset>, backends: set<Backend>)
    requires forall b :: b in backends <==> HasAddress(subsets, b.ip) && HasPort(subsets, name, b.port)
    requires forall i, j :: 0 <= i < j < |subsets| ==> subsets[i].addresses !! subsets[j].addresses
    ensures OnlyReal(subsets, name, backends) <==> SamePorts(subsets, name)
  {
    hide Matching;
    if OnlyReal(subsets, name, backends) {
      forall i, j | 0 <= i < |subsets| && 0 <= j < |subsets| && subsets[i].addresses != {}
        ensures Matching(subsets[j], name) <= Matching(subsets[i], name)
      {
        var a :| a in subsets[i].addresses;
        forall p | p in Matching(subsets[j], name) ensures p in Matching(subsets[i], name) {
          assert HasAddress(subsets, a) && HasPort(subsets, name, p) && Backend(a, p) in backends;
        }
      }
    }
    if SamePorts(subsets, name) {
      forall b | b in backends ensures Real(subsets, name, b) {
        var i, j := Indexes(subsets, name, b);
        assert Matching(subsets[j], name) <= Matching(subsets[i], name);
      }
    }
  }

  /** Two subsets with different ports: it invents a backend. */
  lemma InventedBackend()
    ensures exists subsets: seq<Subset>, b: Backend ::
              HasAddress(subsets, b.ip) && HasPort(subsets, "", b.port) && !Real(subsets, "", b)
  {
    var subsets := [Subset({"a"}, {EndpointPort("x", 1)}), Subset({"b"}, {EndpointPort("y", 2)})];
    var b := Backend("a", 2);
    assert "a" in subsets[0].addresses && EndpointPort("y", 2) in subsets[1].ports &&
      PortMatches("", EndpointPort("y", 2));
    assert "a" != "b" && "a" !in subsets[1].addresses;
    assert HasAddress(subsets, b.ip) && HasPort(subsets, "", b.port) && !Real(subsets, "", b);
  }
}
