/**
 Device paths in terms of the types, subtypes and lengths of their nodes: 0x7F, marked as unpacked 0xFF, is the
 type of end nodes, 0xFF and 0x01 their subtypes (lib/dpath.c, inc/efidevp.h).
 */
module DevicePathShapes {
  import opened Word64
  import opened Wrappers
  import opened DevicePath
  import opened DevicePathUnpack

  predicate EndKind(n: Node) {
    n.kind == 0x7F || n.kind == 0xFF
  }

  lemma EndNodes(n: Node)
    ensures EndType(n) <==> EndKind(n)
    ensures IsEnd(n) <==> EndKind(n) && n.sub == 0xFF
  {
  }

  /** A device path is what its last node, and no other, ends, with lengths of 16 bits. */
  lemma {:induction false} ValidPaths(nodes: seq<Node>)
    ensures Valid(nodes) <==>
      && nodes != [] && EndKind(Last(nodes)) && Last(nodes).sub == 0xFF
      && (forall k | 0 <= k < |nodes| - 1 :: !(EndKind(nodes[k]) && nodes[k].sub == 0xFF))
      && forall k | 0 <= k < |nodes| :: 4 + |nodes[k].data| < 0x1_0000
    decreases |nodes|
  {
    if nodes != [] {
      EndNodes(nodes[0]);
      ValidPaths(nodes[1..]);
      if |nodes| > 1 {
        assert Last(nodes[1..]) == Last(nodes);
        assert forall k | 0 < k < |nodes| :: nodes[k] == nodes[1..][k - 1];
      }
    }
  }

  /** No end node of either kind stands before position `k`. */
  predicate NoEndBefore(nodes: seq<Node>, k: nat) {
    k <= |nodes| && forall j | 0 <= j < k :: !EndKind(nodes[j])
  }

  lemma {:induction false} InstanceFrom(nodes: seq<Node>, count: nat, k: nat)
    requires Valid(nodes) && k < |nodes| && count + k <= 513 && NoEndBefore(nodes, k)
    requires EndKind(nodes[k]) || count + k == 513
    ensures Instance(nodes, count) == nodes[..k]
    ensures After(nodes, count) == if nodes[k].sub == 0xFF then [] else nodes[k + 1..]
    decreases k
  {
    EndNodes(nodes[0]);
    if k > 0 {
      assert nodes[1..][k - 1] == nodes[k] && forall j | 0 <= j < k - 1 :: nodes[1..][j] == nodes[j + 1];
      InstanceFrom(nodes[1..], count + 1, k - 1);
      assert nodes[..k] == [nodes[0]] + nodes[1..][..k - 1] && nodes[1..][k..] == nodes[k + 1..];
    }
  }

  /** MAIN: one call yields the nodes before the first end node, of the whole path or of an instance, but at most
      513. It goes on behind that node, unless its subtype is 0xFF, the node behind 513 others included. */
  lemma OneCall(nodes: seq<Node>, k: nat)
    requires Valid(nodes) && k < |nodes| && k <= 513 && NoEndBefore(nodes, k) && (EndKind(nodes[k]) || k == 513)
    ensures Instance(nodes, 0) == nodes[..k]
    ensures After(nodes, 0) == if nodes[k].sub == 0xFF then [] else nodes[k + 1..]
  {
    InstanceFrom(nodes, 0, k);
  }

  /** MAIN: the first instance consists of the nodes before the first end node; behind it come those of the rest. */
  lemma {:induction false} FirstOfSplit(nodes: seq<Node>, k: nat)
    requires Valid(nodes) && k < |nodes| && NoEndBefore(nodes, k) && EndKind(nodes[k])
    ensures Split(nodes)[0] == nodes[..k]
    ensures nodes[k].sub == 0xFF ==> |Split(nodes)| == 1
    ensures nodes[k].sub != 0xFF ==> Valid(nodes[k + 1..]) && Split(nodes)[1..] == Split(nodes[k + 1..])
    decreases k
  {
    EndNodes(nodes[0]);
    if k > 0 {
      assert nodes[1..][k - 1] == nodes[k] && forall j | 0 <= j < k - 1 :: nodes[1..][j] == nodes[j + 1];
      FirstOfSplit(nodes[1..], k - 1);
      assert nodes[..k] == [nodes[0]] + nodes[1..][..k - 1] && nodes[1..][k..] == nodes[k + 1..];
    }
  }

  /** MAIN: joining changes the subtype of the last node of the first path to 0x01, and nothing else. */
  lemma {:induction false} JoinIs(src: seq<Node>, inst: seq<Node>)
    requires Valid(src)
    ensures Join(src, inst) == src[..|src| - 1] + [Last(src).(sub := 0x01)] + inst
    decreases |src|
  {
    hide Join, Valid, IsEnd;
    JoinStep(src, inst);
    if IsEnd(src[0]) {
      assert src[..|src| - 1] == [];
    } else {
      JoinIs(src[1..], inst);
      var middle := [Last(src).(sub := 0x01)];
      assert src[..|src| - 1] == [src[0]] + src[1..][..|src| - 2];
      Grouped(src[0], src[1..][..|src| - 2], middle, inst);
    }
  }

  lemma JoinStep(src: seq<Node>, inst: seq<Node>)
    requires Valid(src)
    ensures src != [] && (IsEnd(src[0]) ==> |src| == 1 && Join(src, inst) == [Last(src).(sub := 0x01)] + inst)
    ensures !IsEnd(src[0]) ==>
      && |src| > 1 && Valid(src[1..]) && Last(src[1..]) == Last(src)
      && Join(src, inst) == [src[0]] + Join(src[1..], inst)
  {
  }

  lemma Grouped(n: Node, a: seq<Node>, b: seq<Node>, c: seq<Node>)
    ensures [n] + (a + b + c) == ([n] + a) + b + c
  {
  }

  /** MAIN: an unpacked node is the node with the top bit of its type set and the fewest zeros behind its data
      that make its length a multiple of the alignment. */
  lemma UnpackedNode(n: Node, align: Align)
    ensures var u := UnpackNode(n, align); var pad := |u.data| - |n.data|;
      && u.kind == (if n.kind < 0x80 then n.kind + 0x80 else n.kind) && u.sub == n.sub
      && 0 <= pad < align && (4 + |u.data|) % align == 0
      && u.data[..|n.data|] == n.data && forall k | |n.data| <= k < |u.data| :: u.data[k] == 0
  {
    UnpackLength(n, align);
    FillUp(Len(n), align);
    AboveIs(Len(UnpackNode(n, align)), align);
  }

  lemma AboveIs(a: nat, align: Align)
    ensures Above(a, align) == a % align
  {
  }
}
