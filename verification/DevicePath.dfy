/**
 Device paths (lib/dpath.c): packed lists of variable-length nodes in memory. A node is a type, a subtype
 and data; its header also holds its length in two bytes. End nodes close an instance or the whole path.
 */
module DevicePath {
  import opened Word64
  import opened Wrappers

  const END_TYPE := 0x7F
  const END_ENTIRE: byte := 0xFF
  const END_INSTANCE: byte := 0x01
  /** Octal 01000. */
  const NODE_CAP := 512

  // ----- nodes and their bytes

  datatype Node = Node(kind: byte, sub: byte, data: seq<byte>)

  function Len(n: Node): nat {
    4 + |n.data|
  }

  predicate EndType(n: Node) {
    n.kind % 128 == END_TYPE
  }

  predicate IsEnd(n: Node) {
    EndType(n) && n.sub == END_ENTIRE
  }

  /** A device path: its last node, and no other, ends the whole path, and lengths fit their field. */
  predicate Valid(nodes: seq<Node>) {
    nodes != [] && Len(nodes[0]) < 0x1_0000
    && if IsEnd(nodes[0]) then |nodes| == 1 else Valid(nodes[1..])
  }

  function Size(nodes: seq<Node>): nat {
    if nodes == [] then 0 else Len(nodes[0]) + Size(nodes[1..])
  }

  /** The node `n` is at `p`. */
  predicate NodeAt(b: seq<byte>, p: nat, n: Node) {
    p + Len(n) <= |b| && b[p] == n.kind && b[p + 1] == n.sub
    && b[p + 2] == Len(n) % 256 && b[p + 3] == Len(n) / 256 % 256
    && forall k: nat | k < |n.data| :: b[p + 4 + k] == n.data[k]
  }

  /** The nodes are at `p`, one behind the other. */
  predicate Holds(b: seq<byte>, p: nat, nodes: seq<Node>)
    decreases |nodes|
  {
    nodes == [] || (NodeAt(b, p, nodes[0]) && Holds(b, p + Len(nodes[0]), nodes[1..]))
  }

  /** Bytes determine the path they hold. */
  lemma {:induction false} HoldsUnique(b: seq<byte>, p: nat, s: seq<Node>, t: seq<Node>)
    requires Valid(s) && Valid(t) && Holds(b, p, s) && Holds(b, p, t)
    ensures s == t
    decreases |s|
  {
    NodeUnique(b, p, s[0], t[0]);
    if !IsEnd(s[0]) {
      HoldsUnique(b, p + Len(s[0]), s[1..], t[1..]);
      assert s == [s[0]] + s[1..] && t == [t[0]] + t[1..];
    }
  }

  lemma NodeUnique(b: seq<byte>, p: nat, m: Node, n: Node)
    requires NodeAt(b, p, m) && NodeAt(b, p, n) && Len(m) < 0x1_0000 && Len(n) < 0x1_0000
    ensures m == n
  {
    assert Len(m) == Len(n);
    forall k: nat | k < |m.data| ensures m.data[k] == n.data[k] {
      assert b[p + 4 + k] == m.data[k];
    }
    assert m.data == n.data;
  }

  lemma {:induction false} HoldsAppend(b: seq<byte>, p: nat, s: seq<Node>, t: seq<Node>)
    ensures Holds(b, p, s + t) <==> Holds(b, p, s) && Holds(b, p + Size(s), t)
    ensures Size(s + t) == Size(s) + Size(t)
    decreases |s|
  {
    if s == [] {
      assert s + t == t;
    } else {
      assert (s + t)[1..] == s[1..] + t;
      HoldsAppend(b, p + Len(s[0]), s[1..], t);
    }
  }

  lemma Slices(b: seq<byte>, p: nat, s: nat, n: nat)
    requires n <= s && p + s <= |b|
    ensures b[p..p + s][..n] == b[p..p + n] && b[p..p + s][n..] == b[p + n..p + s]
  {
  }

  lemma UpdateLater(u: seq<byte>, i: nat, x: byte, n: nat)
    requires n <= i < |u|
    ensures u[i := x][..n] == u[..n] && u[i := x][n..] == u[n..][i - n := x]
  {
  }

  /** A copy of the bytes holds the same nodes. */
  lemma {:induction false} HoldsCopy(b: seq<byte>, p: nat, c: seq<byte>, q: nat, nodes: seq<Node>)
    requires Holds(b, p, nodes) && p + Size(nodes) <= |b| && q + Size(nodes) <= |c|
    requires b[p..p + Size(nodes)] == c[q..q + Size(nodes)]
    ensures Holds(c, q, nodes)
    decreases |nodes|
  {
    if nodes != [] {
      var n, s := Len(nodes[0]), Size(nodes);
      NodeCopy(b, p, c, q, nodes[0], s);
      Slices(b, p, s, n);
      Slices(c, q, s, n);
      HoldsCopy(b, p + n, c, q + n, nodes[1..]);
    }
  }

  lemma NodeCopy(b: seq<byte>, p: nat, c: seq<byte>, q: nat, n: Node, s: nat)
    requires NodeAt(b, p, n) && Len(n) <= s && p + s <= |b| && q + s <= |c| && b[p..p + s] == c[q..q + s]
    ensures NodeAt(c, q, n)
  {
    ghost var u, v := b[p..p + s], c[q..q + s];
    assert u[0] == v[0] && u[1] == v[1] && u[2] == v[2] && u[3] == v[3];
    forall k: nat | k < |n.data| ensures c[q + 4 + k] == n.data[k] {
      assert u[4 + k] == v[4 + k];
      assert b[p + 4 + k] == n.data[k];
    }
  }

  lemma {:induction false} HoldsSize(b: seq<byte>, p: nat, nodes: seq<Node>)
    requires Holds(b, p, nodes) && p <= |b|
    ensures p + Size(nodes) <= |b|
    decreases |nodes|
  {
    if nodes != [] {
      HoldsSize(b, p + Len(nodes[0]), nodes[1..]);
    }
  }

  // ----- reading headers

  /** DevicePathNodeLength. */
  function NodeLength(m: array<byte>, p: nat): nat
    requires p + 4 <= m.Length
    reads m
  {
    var high: nat := m[p + 3];
    m[p + 2] + 256 * high
  }

  /** IsDevicePathEndType. */
  predicate IsEndType(m: array<byte>, p: nat)
    requires p + 4 <= m.Length
    reads m
  {
    m[p] % 128 == END_TYPE
  }

  /** IsDevicePathEnd. */
  predicate IsPathEnd(m: array<byte>, p: nat)
    requires p + 4 <= m.Length
    reads m
  {
    IsEndType(m, p) && m[p + 1] == END_ENTIRE
  }

  lemma Header(m: array<byte>, p: nat, nodes: seq<Node>)
    requires Valid(nodes) && Holds(m[..], p, nodes)
    ensures nodes != [] && 4 <= Len(nodes[0]) && p + Len(nodes[0]) <= m.Length
    ensures NodeLength(m, p) == Len(nodes[0])
    ensures IsEndType(m, p) == EndType(nodes[0]) && IsPathEnd(m, p) == IsEnd(nodes[0]) && m[p + 1] == nodes[0].sub
    ensures IsEnd(nodes[0]) ==> nodes[1..] == []
    ensures !IsEnd(nodes[0]) ==> nodes[1..] != [] && Valid(nodes[1..]) && Holds(m[..], p + Len(nodes[0]), nodes[1..])
    ensures Size(nodes) == Len(nodes[0]) + Size(nodes[1..])
  {
    assert m[..][p] == m[p] && m[..][p + 1] == m[p + 1] && m[..][p + 2] == m[p + 2] && m[..][p + 3] == m[p + 3];
    assert Len(nodes[0]) == Len(nodes[0]) % 256 + 256 * (Len(nodes[0]) / 256);
  }

  function Last(nodes: seq<Node>): Node
    requires nodes != []
  {
    nodes[|nodes| - 1]
  }

  /** The header of `n` is at `p`. */
  predicate HeadAt(b: seq<byte>, p: nat, n: Node) {
    p + 4 <= |b| && b[p] == n.kind && b[p + 1] == n.sub
    && b[p + 2] == Len(n) % 256 && b[p + 3] == Len(n) / 256 % 256
  }

  /** The headers of the nodes are where they would be for the nodes at `p`: enough for walking. */
  predicate Heads(b: seq<byte>, p: nat, nodes: seq<Node>)
    decreases |nodes|
  {
    nodes == [] || (HeadAt(b, p, nodes[0]) && Heads(b, p + Len(nodes[0]), nodes[1..]))
  }

  lemma {:induction false} HoldsHeads(b: seq<byte>, p: nat, nodes: seq<Node>)
    requires Holds(b, p, nodes)
    ensures Heads(b, p, nodes)
    decreases |nodes|
  {
    if nodes != [] {
      HoldsHeads(b, p + Len(nodes[0]), nodes[1..]);
    }
  }

  /** All of a path but the data of its end node. */
  function Bare(nodes: seq<Node>): int
    requires nodes != []
  {
    Size(nodes) - |Last(nodes).data|
  }

  lemma BareStep(nodes: seq<Node>)
    requires nodes != []
    ensures Bare(nodes) == if |nodes| == 1 then 4 else Len(nodes[0]) + Bare(nodes[1..])
  {
    if |nodes| > 1 {
      assert Last(nodes[1..]) == Last(nodes);
    } else {
      assert Size(nodes[1..]) == 0;
    }
  }

  lemma {:induction false} BareAtLeast(nodes: seq<Node>)
    requires nodes != []
    ensures Bare(nodes) >= 4
    decreases |nodes|
  {
    BareStep(nodes);
    if |nodes| > 1 {
      BareAtLeast(nodes[1..]);
    }
  }

  lemma HeadCopy(b: seq<byte>, p: nat, c: seq<byte>, q: nat, n: Node, s: nat)
    requires HeadAt(b, p, n) && 4 <= s && p + s <= |b| && q + s <= |c| && b[p..p + s] == c[q..q + s]
    ensures HeadAt(c, q, n)
  {
    ghost var u, v := b[p..p + s], c[q..q + s];
    assert u[0] == v[0] && u[1] == v[1] && u[2] == v[2] && u[3] == v[3];
  }

  /** A copy without the end node's data can still be walked. */
  lemma {:induction false} HeadsCopy(b: seq<byte>, p: nat, c: seq<byte>, q: nat, nodes: seq<Node>, s: nat)
    requires nodes != [] && Heads(b, p, nodes) && s == Bare(nodes) && p + s <= |b| && q + s <= |c|
    requires b[p..p + s] == c[q..q + s]
    ensures Heads(c, q, nodes)
    decreases |nodes|
  {
    hide HeadAt, Bare;
    BareAtLeast(nodes);
    BareStep(nodes);
    HeadCopy(b, p, c, q, nodes[0], s);
    if |nodes| > 1 {
      var n := Len(nodes[0]);
      BareAtLeast(nodes[1..]);
      Slices(b, p, s, n);
      Slices(c, q, s, n);
      HeadsCopy(b, p + n, c, q + n, nodes[1..], s - n);
    }
  }

  lemma HeadOf(m: array<byte>, p: nat, nodes: seq<Node>)
    requires Valid(nodes) && Heads(m[..], p, nodes)
    ensures nodes != [] && p + 4 <= m.Length && NodeLength(m, p) == Len(nodes[0]) && IsPathEnd(m, p) == IsEnd(nodes[0])
    ensures IsEnd(nodes[0]) ==> |nodes| == 1
    ensures !IsEnd(nodes[0]) ==>
      nodes[1..] != [] && Valid(nodes[1..]) && Heads(m[..], p + Len(nodes[0]), nodes[1..])
      && Last(nodes[1..]) == Last(nodes)
  {
    assert m[..][p] == m[p] && m[..][p + 1] == m[p + 1] && m[..][p + 2] == m[p + 2] && m[..][p + 3] == m[p + 3];
    assert Len(nodes[0]) == Len(nodes[0]) % 256 + 256 * (Len(nodes[0]) / 256);
  }

  /** The walk to the end node. */
  method FindEnd(m: array<byte>, p: nat, ghost nodes: seq<Node>) returns (q: nat)
    requires Valid(nodes) && Heads(m[..], p, nodes)
    ensures nodes != [] && p <= q && q + 4 == p + Bare(nodes) <= m.Length && NodeLength(m, q) == Len(Last(nodes))
  {
    hide Valid, Heads, Bare, IsPathEnd, NodeLength, IsEnd;
    q := p;
    ghost var rest := nodes;
    HeadOf(m, q, rest);
    while !IsPathEnd(m, q)
      invariant rest != [] && Valid(rest) && Heads(m[..], q, rest) && Last(rest) == Last(nodes)
      invariant q + 4 <= m.Length && p <= q && q + Bare(rest) == p + Bare(nodes)
      decreases |rest|
    {
      HeadOf(m, q, rest);
      BareStep(rest);
      q, rest := q + NodeLength(m, q), rest[1..];
      HeadOf(m, q, rest);
    }
    HeadOf(m, q, rest);
    BareStep(rest);
  }

  /** DevicePathSize: all bytes of the path, if its end node has the usual four. */
  method DevicePathSize(m: array<byte>, p: nat, ghost nodes: seq<Node>) returns (size: nat)
    requires Valid(nodes) && Holds(m[..], p, nodes)
    ensures nodes != [] && size == Bare(nodes) && p + size <= p + Size(nodes) <= m.Length
  {
    hide Valid, Holds, Size, Heads, NodeLength;
    HoldsHeads(m[..], p, nodes);
    var q := FindEnd(m, p, nodes);
    HoldsSize(m[..], p, nodes);
    size := q - p + 4;
  }

  lemma Empty()
    ensures Size([]) == 0
  {
  }

  // ----- instances

  /** DevicePathInstance stops here: at an end node, or when it has passed more nodes than it believes in. */
  predicate Stops(n: Node, count: nat) {
    EndType(n) || count > NODE_CAP
  }

  /** The nodes it passes. */
  function Instance(nodes: seq<Node>, count: nat): seq<Node> {
    if nodes == [] || Stops(nodes[0], count) then [] else [nodes[0]] + Instance(nodes[1..], count + 1)
  }

  /** The nodes it leaves for the next call. */
  function After(nodes: seq<Node>, count: nat): (rest: seq<Node>)
    ensures nodes != [] ==> |rest| < |nodes|
  {
    if nodes == [] then []
    else if Stops(nodes[0], count) then if nodes[0].sub == END_ENTIRE then [] else nodes[1..]
    else After(nodes[1..], count + 1)
  }

  /** What repeated calls yield. */
  function Instances(nodes: seq<Node>): seq<seq<Node>>
    decreases |nodes|
  {
    if nodes == [] then [] else [Instance(nodes, 0)] + Instances(After(nodes, 0))
  }

  lemma {:induction false} AfterValid(nodes: seq<Node>, count: nat)
    requires Valid(nodes)
    ensures After(nodes, count) != [] ==> Valid(After(nodes, count))
    decreases |nodes|
  {
    if !IsEnd(nodes[0]) && !Stops(nodes[0], count) {
      AfterValid(nodes[1..], count + 1);
    }
  }

  lemma Step(nodes: seq<Node>, count: nat)
    requires Valid(nodes)
    ensures if Stops(nodes[0], count) then
        Instance(nodes, count) == []
        && After(nodes, count) == if nodes[0].sub == END_ENTIRE then [] else nodes[1..]
      else
        After(nodes, count) == After(nodes[1..], count + 1)
        && Size(Instance(nodes, count)) == Len(nodes[0]) + Size(Instance(nodes[1..], count + 1))
    ensures Stops(nodes[0], count) && nodes[0].sub != END_ENTIRE ==> !IsEnd(nodes[0])
    ensures !Stops(nodes[0], count) ==> !IsEnd(nodes[0])
  {
    if !Stops(nodes[0], count) {
      assert Instance(nodes, count)[1..] == Instance(nodes[1..], count + 1);
    }
  }

  /** DevicePathInstance, with the pointer it advances. */
  method DevicePathInstance(m: array<byte>, path: Option<nat>, ghost nodes: seq<Node>)
    returns (start: Option<nat>, next: Option<nat>, size: nat)
    requires path.Some? ==> Valid(nodes) && Holds(m[..], path.value, nodes)
    ensures start == path && (path.None? ==> next.None?)
    ensures path.Some? ==> size == Size(Instance(nodes, 0)) && next.Some? == (After(nodes, 0) != [])
    ensures path.Some? && next.Some? ==>
      var rest := After(nodes, 0);
      Valid(rest) && Holds(m[..], next.value, rest) && next.value + Size(rest) == path.value + Size(nodes)
  {
    hide Valid, Holds, Size, IsEndType, IsPathEnd, NodeLength, IsEnd, EndType, Instance, After;
    start, next, size := path, None, 0;
    if path.None? {
      return;
    }
    var p: nat := path.value;
    var q: nat, count: nat := p, 0;
    ghost var rest := nodes;
    Header(m, q, rest);
    while !IsEndType(m, q) && !(count > NODE_CAP)
      invariant rest != [] && Valid(rest) && Holds(m[..], q, rest)
      invariant q + 4 <= m.Length && p <= q && IsEndType(m, q) == EndType(rest[0])
      invariant q + Size(rest) == p + Size(nodes)
      invariant After(rest, count) == After(nodes, 0)
      invariant q - p + Size(Instance(rest, count)) == Size(Instance(nodes, 0))
      decreases |rest|
    {
      Header(m, q, rest);
      Step(rest, count);
      q, rest, count := q + NodeLength(m, q), rest[1..], count + 1;
      Header(m, q, rest);
    }
    Header(m, q, rest);
    Step(rest, count);
    Empty();
    if m[q + 1] != END_ENTIRE {
      next := Some(q + NodeLength(m, q));
    }
    size := q - p;
  }

  lemma InstancesStep(nodes: seq<Node>)
    requires Valid(nodes)
    ensures nodes != [] && |Instances(nodes)| == 1 + |Instances(After(nodes, 0))| && |After(nodes, 0)| < |nodes|
  {
  }

  lemma NoInstances()
    ensures Instances([]) == []
  {
  }

  /** DevicePathInstanceCount. */
  method DevicePathInstanceCount(m: array<byte>, path0: Option<nat>, ghost nodes: seq<Node>) returns (count: nat)
    requires path0.Some? ==> Valid(nodes) && Holds(m[..], path0.value, nodes)
    ensures count == if path0.None? then 0 else |Instances(nodes)|
  {
    hide *;
    count := 0;
    var path := path0;
    ghost var rest := if path.None? then [] else nodes;
    NoInstances();
    while true
      invariant path.None? ==> rest == []
      invariant path.Some? ==> Valid(rest) && Holds(m[..], path.value, rest)
      invariant count + |Instances(rest)| == if path0.None? then 0 else |Instances(nodes)|
      decreases |rest|, path.Some?
    {
      var start, next, size := DevicePathInstance(m, path, rest);
      if start.None? {
        break;
      }
      InstancesStep(rest);
      count := count + 1;
      path, rest := next, After(rest, 0);
    }
  }

  /** The instances as end nodes divide them. */
  function Split(nodes: seq<Node>): (s: seq<seq<Node>>)
    requires Valid(nodes)
    ensures s != []
  {
    if IsEnd(nodes[0]) then [[]]
    else
      var s := Split(nodes[1..]);
      if EndType(nodes[0]) then [[]] + s
      else [[nodes[0]] + s[0]] + s[1..]
  }

  /** Below the cap, a call takes exactly the first instance; above it, it takes as many nodes as the cap
      lets it. */
  lemma {:induction false} FirstInstance(nodes: seq<Node>, count: nat)
    requires Valid(nodes) && count <= NODE_CAP + 1
    ensures var s := Split(nodes);
      if count + |s[0]| <= NODE_CAP + 1 then
        Instance(nodes, count) == s[0]
        && (if After(nodes, count) == [] then s[1..] == []
            else Valid(After(nodes, count)) && s[1..] == Split(After(nodes, count)))
      else
        |Instance(nodes, count)| < |s[0]|
    decreases |nodes|
  {
    if !EndType(nodes[0]) {
      if count > NODE_CAP {
        assert Split(nodes)[0] == [nodes[0]] + Split(nodes[1..])[0];
      } else {
        FirstInstance(nodes[1..], count + 1);
      }
    }
  }

  /** MAIN: repeated calls yield the instances between end nodes exactly when none has over 513 nodes. */
  lemma {:induction false} InstancesAreSplit(nodes: seq<Node>)
    requires Valid(nodes)
    ensures Instances(nodes) == Split(nodes) <==> forall s <- Split(nodes) :: |s| <= 513
    decreases |nodes|
  {
    var s, rest := Split(nodes), After(nodes, 0);
    FirstInstance(nodes, 0);
    assert s == [s[0]] + s[1..];
    assert Instances(nodes)[0] == Instance(nodes, 0) && Instances(nodes)[1..] == Instances(rest);
    if |s[0]| <= NODE_CAP + 1 && rest != [] {
      InstancesAreSplit(rest);
    } else {
      assert s[0] in s;
    }
  }

  // ----- one instance behind another

  /** The path AppendDevicePathInstance builds: the end node of `src` now ends an instance only. */
  function Join(src: seq<Node>, inst: seq<Node>): (r: seq<Node>)
    requires Valid(src)
    ensures r != []
  {
    if IsEnd(src[0]) then [src[0].(sub := END_INSTANCE)] + inst else [src[0]] + Join(src[1..], inst)
  }

  /** The calls reach the end of the path: none stops for good at a node that only has the subtype of the end. */
  predicate ReachesEnd(nodes: seq<Node>)
    requires Valid(nodes)
    decreases |nodes|
  {
    var rest := After(nodes, 0);
    AfterValid(nodes, 0);
    if rest == [] then IsEnd(Stop(nodes, 0)) else ReachesEnd(rest)
  }

  function Stop(nodes: seq<Node>, count: nat): Node
    requires Valid(nodes)
  {
    if Stops(nodes[0], count) then nodes[0] else Stop(nodes[1..], count + 1)
  }

  lemma {:induction false} JoinValid(src: seq<Node>, inst: seq<Node>)
    requires Valid(src) && Valid(inst)
    ensures Valid(Join(src, inst)) && Size(Join(src, inst)) == Size(src) + Size(inst)
    decreases |src|
  {
    if IsEnd(src[0]) {
      assert Join(src, inst)[1..] == inst;
    } else {
      JoinValid(src[1..], inst);
      assert Join(src, inst)[1..] == Join(src[1..], inst);
    }
  }

  lemma {:induction false} JoinWalk(src: seq<Node>, inst: seq<Node>, count: nat)
    requires Valid(src) && Valid(inst)
    ensures var j, rest := Join(src, inst), After(src, count);
      && Instance(j, count) == Instance(src, count)
      && (rest != [] ==> Valid(rest) && After(j, count) == Join(rest, inst))
      && (rest == [] ==> After(j, count) == if IsEnd(Stop(src, count)) then inst else [])
    decreases |src|
  {
    if IsEnd(src[0]) {
      assert Join(src, inst)[1..] == inst;
    } else {
      assert Join(src, inst)[1..] == Join(src[1..], inst);
      if !Stops(src[0], count) {
        JoinWalk(src[1..], inst, count + 1);
      }
    }
  }

  /** MAIN: the instances of the joined path are those of both, exactly when the calls reach the end of the
      first path; otherwise the second is lost behind it. */
  lemma {:induction false} JoinInstances(src: seq<Node>, inst: seq<Node>)
    requires Valid(src) && Valid(inst)
    ensures Instances(Join(src, inst)) == if ReachesEnd(src) then Instances(src) + Instances(inst) else Instances(src)
    decreases |src|
  {
    JoinWalk(src, inst, 0);
    var rest := After(src, 0);
    if rest != [] {
      JoinInstances(rest, inst);
    }
  }

  /** Counts add up, under the same condition. */
  lemma JoinCounts(src: seq<Node>, inst: seq<Node>)
    requires Valid(src) && Valid(inst)
    ensures |Instances(Join(src, inst))| == |Instances(src)| + |Instances(inst)| <==> ReachesEnd(src)
  {
    JoinInstances(src, inst);
    assert Instances(inst) != [];
  }

  /** Short instances are enough, and so is that no other node has the subtype 0xFF. */
  lemma {:induction false} ShortReachesEnd(nodes: seq<Node>)
    requires Valid(nodes)
    requires (forall s <- Split(nodes) :: |s| <= 513)
      || (forall n <- nodes :: n.sub == 0xFF ==> EndType(n))
    ensures ReachesEnd(nodes)
    decreases |nodes|
  {
    var rest := After(nodes, 0);
    StopIs(nodes, 0);
    AfterValid(nodes, 0);
    if forall s <- Split(nodes) :: |s| <= NODE_CAP + 1 {
      FirstInstance(nodes, 0);
      assert Split(nodes)[0] in Split(nodes);
      if rest != [] {
        ShortReachesEnd(rest);
      }
    } else if rest != [] {
      ShortReachesEnd(rest);
    }
  }

  lemma {:induction false} StopIs(nodes: seq<Node>, count: nat)
    requires Valid(nodes) && count <= NODE_CAP + 1
    ensures Stop(nodes, count) in nodes
    ensures After(nodes, count) == [] <==> Stop(nodes, count).sub == END_ENTIRE
    ensures forall n <- After(nodes, count) :: n in nodes
    ensures count + |Split(nodes)[0]| <= NODE_CAP + 1 ==> EndType(Stop(nodes, count))
    decreases |nodes|
  {
    if !EndType(nodes[0]) {
      if count > NODE_CAP {
        assert Split(nodes)[0] == [nodes[0]] + Split(nodes[1..])[0];
      } else {
        StopIs(nodes[1..], count + 1);
      }
    }
  }

  /** Changing the subtype of the end node, and putting a path behind it, joins the paths in memory. */
  lemma {:induction false} JoinHolds(b: seq<byte>, c: seq<byte>, p: nat, src: seq<Node>, inst: seq<Node>)
    requires Valid(src) && Last(src).data == [] && Holds(b, p, src)
    requires Size(src) >= 4 && p + Size(src) <= |b| && p + Size(src) <= |c|
    requires c[p..p + Size(src)] == b[p..p + Size(src)][Size(src) - 3 := END_INSTANCE]
    requires Holds(c, p + Size(src), inst)
    ensures Holds(c, p, Join(src, inst))
    decreases |src|
  {
    hide NodeAt, Join, IsEnd;
    var n, s, rest := Len(src[0]), Size(src), src[1..];
    var u, v := b[p..p + s], c[p..p + s];
    JoinStep(src, inst);
    if IsEnd(src[0]) {
      MarkHolds(b, c, p, src[0]);
    } else {
      SizeBounds(rest);
      Slices(b, p, s, n);
      Slices(c, p, s, n);
      UpdateLater(u, s - 3, END_INSTANCE, n);
      NodeCopy(b, p, c, p, src[0], n);
      JoinHolds(b, c, p + n, rest, inst);
    }
  }

  lemma JoinStep(src: seq<Node>, inst: seq<Node>)
    requires Valid(src)
    ensures var j := Join(src, inst);
      if IsEnd(src[0]) then j[0] == src[0].(sub := END_INSTANCE) && j[1..] == inst
      else j[0] == src[0] && j[1..] == Join(src[1..], inst)
  {
  }

  lemma MarkHolds(b: seq<byte>, c: seq<byte>, p: nat, end: Node)
    requires end.data == [] && NodeAt(b, p, end) && p + 4 <= |c|
    requires c[p..p + 4] == b[p..p + 4][1 := END_INSTANCE]
    ensures NodeAt(c, p, end.(sub := END_INSTANCE))
  {
    var u, v := b[p..p + 4], c[p..p + 4];
    assert c[p] == v[0] && c[p + 1] == v[1] && c[p + 2] == v[2] && c[p + 3] == v[3];
    assert b[p] == u[0] && b[p + 2] == u[2] && b[p + 3] == u[3];
  }

  lemma SizeBounds(nodes: seq<Node>)
    requires nodes != []
    ensures Size(nodes) >= 4
  {
  }

  lemma JoinedHolds(b: seq<byte>, i: seq<byte>, c: seq<byte>, src: seq<Node>, s: nat, ip: nat, inst: seq<Node>, n: nat)
    requires Valid(src) && Last(src).data == [] && Holds(b, 0, src) && Holds(i, ip, inst)
    requires s == Size(src) && n == Size(inst)
    requires 4 <= s <= |b| && ip + n <= |i| && s + n <= |c|
    requires c[..s] == b[..s][s - 3 := END_INSTANCE] && c[s..s + n] == i[ip..ip + n]
    ensures Holds(c, 0, Join(src, inst))
  {
    hide *;
    HoldsCopy(i, ip, c, s, inst);
    JoinHolds(b, c, 0, src, inst);
  }

  /** Memory of the size that is asked for holds the joined path only if both end nodes have four bytes. */
  lemma JoinedWhole(c: seq<byte>, src: seq<Node>, inst: seq<Node>)
    requires Valid(src) && Valid(inst) && |c| == Bare(src) + Bare(inst)
    ensures Holds(c, 0, Join(src, inst)) ==> Last(src).data == [] && Last(inst).data == []
  {
    hide Holds, Size, Join;
    JoinValid(src, inst);
    if Holds(c, 0, Join(src, inst)) {
      HoldsSize(c, 0, Join(src, inst));
    }
  }

  /** MAIN: what AppendDevicePathInstance writes, both paths up to the headers of their end nodes and the
      second behind the whole end node of the first, fits what it asks for exactly if that end node has four
      bytes. */
  lemma AppendFits(src: seq<Node>, inst: seq<Node>)
    requires Valid(src) && Valid(inst)
    ensures Size(src) + Bare(inst) <= Bare(src) + Bare(inst) <==> Last(src).data == []
  {
    hide Size;
  }

  /** CopyMem, between two objects. */
  method CopyBytes(dst: array<byte>, at: nat, src: array<byte>, p: nat, n: nat)
    requires dst != src && at + n <= dst.Length && p + n <= src.Length
    modifies dst
    ensures dst[..] == old(dst[..at]) + src[p..p + n] + old(dst[at + n..])
  {
    forall i | 0 <= i < n {
      dst[at + i] := src[p + i];
    }
  }

  /** DuplicateDevicePath: the same path in memory of its own, exactly if its end node has four bytes. */
  method DuplicateDevicePath(m: array<byte>, p: nat, ghost nodes: seq<Node>, memory: bool) returns (path: array?<byte>)
    requires Valid(nodes) && Holds(m[..], p, nodes)
    ensures if memory then path != null && Duplicated(path[..], nodes) else path == null
  {
    hide *;
    var size := DevicePathSize(m, p, nodes);
    path := null;
    if memory {
      path := new byte[size];
      CopyBytes(path, 0, m, p, size);
      if Last(nodes).data == [] {
        BareIsSize(nodes);
        assert m[..][p..p + size] == path[..][0..size];
        HoldsCopy(m[..], p, path[..], 0, nodes);
      }
      DuplicatedIs(path[..], nodes);
    }
  }

  /** Memory for a copy of the path, which holds it exactly if the end node has four bytes. */
  predicate Duplicated(b: seq<byte>, nodes: seq<Node>)
    requires nodes != []
  {
    |b| == Bare(nodes) && (Holds(b, 0, nodes) <==> Last(nodes).data == [])
  }

  lemma DuplicatedIs(b: seq<byte>, nodes: seq<Node>)
    requires Valid(nodes) && |b| == Bare(nodes)
    requires Last(nodes).data == [] ==> Holds(b, 0, nodes)
    ensures nodes != [] && Duplicated(b, nodes)
  {
    hide Holds, Size;
    if Holds(b, 0, nodes) {
      HoldsSize(b, 0, nodes);
    }
  }

  /** The end node at `q` becomes an instance end, and the instance goes behind it: `overrun` bytes behind the
      end of the memory, where the model writes nothing, if the end node says it is so much longer. */
  method PutInstance(path: array<byte>, q: nat, inst: array<byte>, ip: nat, size: nat) returns (overrun: nat)
    requires path != inst && q + 4 + size == path.Length && ip + size <= inst.Length && NodeLength(path, q) >= 4
    modifies path
    ensures 4 + overrun == old(NodeLength(path, q))
    ensures overrun == 0 ==> path[..] == old(path[..q + 4])[q + 1 := END_INSTANCE] + inst[ip..ip + size]
  {
    hide NodeLength;
    var at := q + NodeLength(path, q);
    overrun := at + size - path.Length;
    path[q + 1] := END_INSTANCE;
    if at < path.Length {
      CopyBytes(path, at, inst, ip, if overrun == 0 then size else path.Length - at);
    }
  }

  /** MAIN: AppendDevicePathInstance builds the joined path exactly if both end nodes have four bytes. The
      second path goes behind the whole end node of the first; `overrun` is how far that is behind the end
      of the memory asked for, where the model writes nothing. */
  method AppendDevicePathInstance(src: array?<byte>, sp: nat, ghost srcNodes: seq<Node>,
                                  inst: array<byte>, ip: nat, ghost instNodes: seq<Node>, memory: bool)
    returns (path: array?<byte>, overrun: nat)
    requires src != null ==> Valid(srcNodes) && Holds(src[..], sp, srcNodes)
    requires Valid(instNodes) && Holds(inst[..], ip, instNodes)
    requires src != null ==> memory
    ensures src == null ==> overrun == 0
    ensures src == null ==> if memory then path != null && Duplicated(path[..], instNodes) else path == null
    ensures src != null ==> path != null && path.Length == Bare(srcNodes) + Bare(instNodes)
    ensures src != null ==> overrun == |Last(srcNodes).data|
    ensures src != null ==>
      (Holds(path[..], 0, Join(srcNodes, instNodes)) <==> Last(srcNodes).data == [] && Last(instNodes).data == [])
  {
    hide *;
    overrun := 0;
    if src == null {
      path := DuplicateDevicePath(inst, ip, instNodes, memory);
      return;
    }
    var srcSize := DevicePathSize(src, sp, srcNodes);
    var instanceSize := DevicePathSize(inst, ip, instNodes);
    path := new byte[srcSize + instanceSize];
    CopyBytes(path, 0, src, sp, srcSize);
    ghost var b := path[..];
    HoldsHeads(src[..], sp, srcNodes);
    BareAtLeast(srcNodes);
    BareAtLeast(instNodes);
    if Last(srcNodes).data == [] {
      BareIsSize(srcNodes);
    }
    assert src[..][sp..sp + srcSize] == b[0..srcSize];
    HeadsCopy(src[..], sp, b, 0, srcNodes, srcSize);
    var q := FindEnd(path, 0, srcNodes);
    LengthIs(Last(srcNodes));
    overrun := PutInstance(path, q, inst, ip, instanceSize);
    JoinedWhole(path[..], srcNodes, instNodes);
    if Last(srcNodes).data == [] && Last(instNodes).data == [] {
      HoldsCopy(src[..], sp, b, 0, srcNodes);
      AppendedHolds(b, inst[..], path[..], srcNodes, ip, instNodes);
    }
  }

  lemma AppendedHolds(b: seq<byte>, i: seq<byte>, c: seq<byte>, src: seq<Node>, ip: nat, inst: seq<Node>)
    requires Valid(src) && Last(src).data == [] && Holds(b, 0, src)
    requires Valid(inst) && Last(inst).data == [] && Holds(i, ip, inst)
    requires var s, n := Bare(src), Bare(inst);
      4 <= s <= |b| && 0 <= n && ip + n <= |i| && c == b[..s][s - 3 := END_INSTANCE] + i[ip..ip + n]
    ensures Holds(c, 0, Join(src, inst))
  {
    hide Holds, Join, Bare, Size;
    BareIsSize(src);
    BareIsSize(inst);
    var s, n := Bare(src), Bare(inst);
    assert c[..s] == b[..s][s - 3 := END_INSTANCE] && c[s..s + n] == i[ip..ip + n];
    JoinedHolds(b, i, c, src, s, ip, inst, n);
  }

  lemma LengthIs(n: Node)
    ensures Len(n) == 4 + |n.data|
  {
  }

  lemma BareIsSize(nodes: seq<Node>)
    requires nodes != []
    ensures Last(nodes).data == [] ==> Bare(nodes) == Size(nodes) >= 4
  {
    BareAtLeast(nodes);
  }
}
