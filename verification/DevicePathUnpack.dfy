/**
 Unpacking a device path (lib/dpath.c): the same nodes, each padded to the alignment of the machine.
 */
module DevicePathUnpack {
  import opened Word64
  import opened Wrappers
  import opened DevicePath

  const UNPACKED := 0x80

  /** MIN_ALIGNMENT_SIZE, which differs between machines. */
  type Align = a: nat | a == 4 || a == 8 witness 8

  // ----- unpacking

  /** `a % MIN_ALIGNMENT_SIZE`. */
  function Above(a: nat, align: Align): nat {
    if align == 4 then a % 4 else a % 8
  }

  /** ALIGN_SIZE. */
  function AlignSize(a: nat, align: Align): nat {
    if Above(a, align) != 0 then align - Above(a, align) else 0
  }

  function Zeros(n: nat): seq<byte> {
    seq(n, _ => 0)
  }

  /** The unpacked form of a node: marked, and padded with zeros to the alignment. */
  function UnpackNode(n: Node, align: Align): Node {
    Node(n.kind % 128 + UNPACKED, n.sub, n.data + Zeros(AlignSize(Len(n), align)))
  }

  function Unpack(nodes: seq<Node>, align: Align): (r: seq<Node>)
    ensures |r| == |nodes|
  {
    if nodes == [] then [] else [UnpackNode(nodes[0], align)] + Unpack(nodes[1..], align)
  }

  lemma UnpackLength(n: Node, align: Align)
    ensures Len(UnpackNode(n, align)) == Len(n) + AlignSize(Len(n), align)
  {
  }

  lemma AddMultiple4(a: nat, b: nat)
    requires a % 4 == 0
    ensures (a + b) % 4 == b % 4
  {
    RemainderUnique(a + b, 4, a / 4 + b / 4, b % 4);
  }

  lemma AddMultiple8(a: nat, b: nat)
    requires a % 8 == 0
    ensures (a + b) % 8 == b % 8
  {
    RemainderUnique(a + b, 8, a / 8 + b / 8, b % 8);
  }

  lemma AboveAdd(a: nat, b: nat, align: Align)
    requires Above(a, align) == 0
    ensures Above(a + b, align) == Above(b, align)
  {
    if align == 4 {
      AddMultiple4(a, b);
    } else {
      AddMultiple8(a, b);
    }
  }

  lemma FillUp(a: nat, align: Align)
    ensures Above(a + AlignSize(a, align), align) == 0
  {
    if align == 4 {
      FillUp4(a);
    } else {
      FillUp8(a);
    }
  }

  lemma FillUp4(a: nat)
    ensures (a + if a % 4 == 0 then 0 else 4 - a % 4) % 4 == 0
  {
  }

  lemma FillUp8(a: nat)
    ensures (a + if a % 8 == 0 then 0 else 8 - a % 8) % 8 == 0
  {
  }

  lemma Padded(size: nat, len: nat, align: Align)
    requires Above(size, align) == 0
    ensures AlignSize(size + len, align) == AlignSize(len, align)
    ensures Above(size + len + AlignSize(len, align), align) == 0
  {
    hide Above;
    AboveAdd(size, len, align);
    FillUp(len, align);
    AboveAdd(size, len + AlignSize(len, align), align);
  }

  lemma UnpackKeeps(n: Node, align: Align)
    ensures var u := UnpackNode(n, align);
      EndType(u) == EndType(n) && u.sub == n.sub && Above(Len(u), align) == 0
  {
    hide AlignSize, Above;
    UnpackLength(n, align);
    AboveZero(align);
    Padded(0, Len(n), align);
  }

  lemma AboveZero(align: Align)
    ensures Above(0, align) == 0
  {
  }

  /** Node by node; every node starts at a multiple of the alignment. */
  lemma {:induction false} UnpackAligned(nodes: seq<Node>, k: nat, align: Align)
    requires k < |nodes|
    ensures Unpack(nodes, align)[k] == UnpackNode(nodes[k], align) && Above(Size(Unpack(nodes, align)[..k]), align) == 0
    decreases |nodes|
  {
    hide UnpackNode, AlignSize, Above;
    if k == 0 {
      AboveZero(align);
      assert Unpack(nodes, align)[..0] == [];
    } else {
      UnpackKeeps(nodes[0], align);
      UnpackAligned(nodes[1..], k - 1, align);
      AboveAdd(Len(UnpackNode(nodes[0], align)), Size(Unpack(nodes[1..], align)[..k - 1]), align);
      assert Unpack(nodes, align)[..k][1..] == Unpack(nodes[1..], align)[..k - 1];
    }
  }

  /** Unpacking again changes nothing. */
  lemma {:induction false} UnpackTwice(nodes: seq<Node>, align: Align)
    ensures Unpack(Unpack(nodes, align), align) == Unpack(nodes, align)
    decreases |nodes|
  {
    if nodes != [] {
      var n := UnpackNode(nodes[0], align);
      assert Above(Len(n), align) == 0;
      assert n.data + Zeros(0) == n.data;
      UnpackTwice(nodes[1..], align);
      assert Unpack(nodes, align)[1..] == Unpack(nodes[1..], align);
    }
  }

  lemma UnpackFits(n: Node, align: Align)
    ensures IsEnd(UnpackNode(n, align)) == IsEnd(n)
      && (Len(UnpackNode(n, align)) < 0x1_0000 <==> Len(n) <= 0x1_0000 - align)
  {
  }

  /** MAIN: the unpacked path can be walked exactly when no padded length overflows its field. */
  lemma {:induction false} UnpackValid(nodes: seq<Node>, align: Align)
    requires Valid(nodes)
    ensures Valid(Unpack(nodes, align)) <==> forall n <- nodes :: Len(n) <= 0x1_0000 - align
    decreases |nodes|
  {
    hide UnpackNode, IsEnd;
    UnpackFits(nodes[0], align);
    assert Unpack(nodes, align)[1..] == Unpack(nodes[1..], align);
    assert nodes == [nodes[0]] + nodes[1..];
    if !IsEnd(nodes[0]) {
      UnpackValid(nodes[1..], align);
    }
  }

  /** Unpacking keeps the instances apart as they were. */
  lemma {:induction false} UnpackWalk(nodes: seq<Node>, count: nat, align: Align)
    ensures Instance(Unpack(nodes, align), count) == Unpack(Instance(nodes, count), align)
    ensures After(Unpack(nodes, align), count) == Unpack(After(nodes, count), align)
    decreases |nodes|
  {
    hide UnpackNode;
    if nodes != [] {
      UnpackKeeps(nodes[0], align);
      assert Unpack(nodes, align)[1..] == Unpack(nodes[1..], align);
      if !Stops(nodes[0], count) {
        UnpackWalk(nodes[1..], count + 1, align);
        assert Instance(nodes, count)[1..] == Instance(nodes[1..], count + 1);
      }
    }
  }

  lemma {:induction false} UnpackInstances(nodes: seq<Node>, k: nat, align: Align)
    requires k < |Instances(nodes)|
    ensures |Instances(Unpack(nodes, align))| == |Instances(nodes)|
    ensures Instances(Unpack(nodes, align))[k] == Unpack(Instances(nodes)[k], align)
    decreases |nodes|
  {
    UnpackWalk(nodes, 0, align);
    var rest := After(nodes, 0);
    if rest != [] {
      UnpackInstances(rest, if k > 0 then k - 1 else 0, align);
    }
  }

  // ----- the unpacking passes

  lemma UnpackStep(nodes: seq<Node>, align: Align)
    requires Valid(nodes)
    ensures nodes != [] && Len(UnpackNode(nodes[0], align)) == Len(nodes[0]) + AlignSize(Len(nodes[0]), align)
    ensures Size(Unpack(nodes, align)) == Len(UnpackNode(nodes[0], align)) + Size(Unpack(nodes[1..], align))
    ensures Unpack(nodes, align) == [UnpackNode(nodes[0], align)] + Unpack(nodes[1..], align)
  {
    hide UnpackNode, AlignSize;
    UnpackLength(nodes[0], align);
    assert Unpack(nodes, align)[1..] == Unpack(nodes[1..], align);
  }

  /** One step of the copying pass. */
  method CopyNode(dst: array<byte>, d: nat, m: array<byte>, q: nat, ghost n: Node, align: Align) returns (next: nat)
    requires dst != m && NodeAt(m[..], q, n) && q + 4 <= m.Length && NodeLength(m, q) == Len(n)
    requires d + Len(UnpackNode(n, align)) <= dst.Length && forall k | d <= k < dst.Length :: dst[k] == 0
    modifies dst
    ensures next == d + Len(UnpackNode(n, align))
    ensures NodeAt(dst[..], d, UnpackNode(n, align)) && dst[..d] == old(dst[..d])
    ensures forall k | next <= k < dst.Length :: dst[k] == 0
  {
    hide NodeLength, AlignSize;
    UnpackLength(n, align);
    var size := NodeLength(m, q);
    CopyBytes(dst, d, m, q, size);
    assert dst[d] == n.kind && dst[d + 1] == n.sub;
    forall k: nat | k < |n.data| + AlignSize(Len(n), align) ensures dst[d + 4 + k] == UnpackNode(n, align).data[k] {
      if k < |n.data| {
        assert m[..][q + 4 + k] == n.data[k];
      }
    }
    size := size + AlignSize(size, align);
    LengthIs(UnpackNode(n, align));
    dst[d + 2] := size % 256;
    dst[d + 3] := size / 256 % 256;
    dst[d] := dst[d] % 128 + UNPACKED;
    next := d + size;
    forall k: nat | k < |UnpackNode(n, align).data| ensures dst[d + 4 + k] == UnpackNode(n, align).data[k] {
    }
  }

  lemma Extend(b: seq<byte>, c: seq<byte>, done: seq<Node>, n: Node)
    requires Holds(b, 0, done) && |b| == |c| && Size(done) <= |b| && b[..Size(done)] == c[..Size(done)]
    requires NodeAt(c, Size(done), n)
    ensures Holds(c, 0, done + [n]) && Size(done + [n]) == Size(done) + Len(n)
  {
    hide Holds, NodeAt, Size;
    assert b[0..0 + Size(done)] == b[..Size(done)] && c[0..0 + Size(done)] == c[..Size(done)];
    HoldsCopy(b, 0, c, 0, done);
    HoldsAppend(c, 0, done, [n]);
    HoldsOne(c, Size(done), n);
  }

  lemma HoldsOne(b: seq<byte>, p: nat, n: Node)
    ensures Holds(b, p, [n]) <==> NodeAt(b, p, n)
    ensures Size([n]) == Len(n)
  {
  }

  lemma HoldsFirst(b: seq<byte>, p: nat, nodes: seq<Node>)
    requires nodes != [] && Holds(b, p, nodes)
    ensures NodeAt(b, p, nodes[0])
  {
  }

  /** MAIN: UnpackDevicePath fills exactly the memory its first pass measured with the unpacked path. */
  method UnpackDevicePath(m: array<byte>, p: nat, ghost nodes: seq<Node>, memory: bool, align: Align)
    returns (path: array?<byte>)
    requires Valid(nodes) && Holds(m[..], p, nodes)
    ensures if memory then path != null && path.Length == Size(Unpack(nodes, align))
      && Holds(path[..], 0, Unpack(nodes, align))
      else path == null
  {
    hide Valid, Holds, NodeAt, Size, IsPathEnd, NodeLength, IsEnd, Unpack, UnpackNode, AlignSize;
    var src: nat, size: nat := p, 0;
    ghost var rest := nodes;
    Header(m, src, rest);
    while true
      invariant Valid(rest) && Holds(m[..], src, rest) && src + 4 <= m.Length
      invariant Above(size, align) == 0 && size + Size(Unpack(rest, align)) == Size(Unpack(nodes, align))
      decreases |rest|
    {
      Header(m, src, rest);
      UnpackStep(rest, align);
      Padded(size, NodeLength(m, src), align);
      size := size + NodeLength(m, src);
      size := size + AlignSize(size, align);
      if IsPathEnd(m, src) {
        NothingLeft(align);
        break;
      }
      src, rest := src + NodeLength(m, src), rest[1..];
      Header(m, src, rest);
    }
    path := null;
    if memory {
      path := new byte[size](_ => 0);
      CopyNodes(path, m, p, nodes, align);
    }
  }

  lemma NothingLeft(align: Align)
    ensures Unpack([], align) == [] && Size([]) == 0
  {
  }

  /** The copying pass. */
  method CopyNodes(path: array<byte>, m: array<byte>, p: nat, ghost nodes: seq<Node>, align: Align)
    requires path != m && Valid(nodes) && Holds(m[..], p, nodes)
    requires path.Length == Size(Unpack(nodes, align)) && forall k | 0 <= k < path.Length :: path[k] == 0
    modifies path
    ensures Holds(path[..], 0, Unpack(nodes, align))
  {
    hide Valid, Holds, NodeAt, Size, IsPathEnd, NodeLength, IsEnd, Unpack, UnpackNode, AlignSize, Len;
    var src: nat, dest: nat := p, 0;
    ghost var rest, done := nodes, [];
    NothingLeft(align);
    HoldsNone(path[..], 0);
    Header(m, src, rest);
    assert done + Unpack(nodes, align) == Unpack(nodes, align);
    while true
      invariant Valid(rest) && Holds(m[..], src, rest) && src + 4 <= m.Length
      invariant dest == Size(done) && dest + Size(Unpack(rest, align)) == path.Length
      invariant Holds(path[..], 0, done) && Unpack(nodes, align) == done + Unpack(rest, align)
      invariant forall k | dest <= k < path.Length :: path[k] == 0
      decreases |rest|
    {
      Header(m, src, rest);
      UnpackStep(rest, align);
      HoldsFirst(m[..], src, rest);
      ghost var before, u := path[..], UnpackNode(rest[0], align);
      dest := CopyNode(path, dest, m, src, rest[0], align);
      Extend(before, path[..], done, u);
      assert Unpack(nodes, align) == (done + [u]) + Unpack(rest[1..], align);
      done := done + [u];
      if IsPathEnd(m, src) {
        break;
      }
      src, rest := src + NodeLength(m, src), rest[1..];
      Header(m, src, rest);
    }
    assert done + [] == done;
  }

  lemma HoldsNone(b: seq<byte>, p: nat)
    ensures Holds(b, p, [])
  {
  }

  // ----- unpacked paths and AppendDevicePathInstance

  lemma {:induction false} UnpackLast(nodes: seq<Node>, align: Align)
    requires nodes != []
    ensures Unpack(nodes, align) != [] && Last(Unpack(nodes, align)) == UnpackNode(Last(nodes), align)
    decreases |nodes|
  {
    hide UnpackNode;
    if |nodes| > 1 {
      UnpackLast(nodes[1..], align);
      assert Unpack(nodes, align)[1..] == Unpack(nodes[1..], align);
    } else {
      assert Unpack(nodes[1..], align) == [];
    }
  }

  /** An unpacked path with the usual end node has one of eight bytes where the alignment is eight. */
  lemma UnpackedEnd(nodes: seq<Node>, align: Align)
    requires nodes != [] && Last(nodes).data == []
    ensures Unpack(nodes, align) != [] && Last(Unpack(nodes, align)).data == Zeros(align - 4)
  {
    UnpackLast(nodes, align);
    assert [] + Zeros(align - 4) == Zeros(align - 4);
  }

  /** MAIN: so AppendDevicePathInstance does not ask for enough behind an unpacked path, whatever the path,
      exactly on machines with that alignment. */
  lemma UnpackedSrc(nodes: seq<Node>, inst: seq<Node>, align: Align)
    requires Valid(nodes) && Last(nodes).data == [] && Valid(inst) && Valid(Unpack(nodes, align))
    ensures var src := Unpack(nodes, align);
      Size(src) + Bare(inst) <= Bare(src) + Bare(inst) <==> align == 4
  {
    hide Unpack, Bare, Size;
    UnpackedEnd(nodes, align);
    AppendFits(Unpack(nodes, align), inst);
    assert |Zeros(align - 4)| == align - 4;
  }

  /** The shortest such path: its end node alone. */
  lemma UnpackedEndNode()
    ensures var src := Unpack([Node(0x7F, 0xFF, [])], 8);
      Valid(src) && Last(src).data == [0, 0, 0, 0] && Size(src) == 8 && Bare(src) == 4
  {
    var end := Node(0x7F, 0xFF, []);
    UnpackStep([end], 8);
    NothingLeft(8);
    assert UnpackNode(end, 8).data == [0, 0, 0, 0];
  }
}
