/** The command-tree decoder behind Bedrock's command autocomplete. */
module Commands {
  import opened MachineInts
  import opened Wire
  import opened Ordering

  const LITERAL := 1
  const ARGUMENT := 2
  const GREEDY_STRING := 5
  const MAX_NODES := 4096

  /** What the decoder keeps of a node. */
  datatype CmdNode = CmdNode(kind: int, children: seq<int>, name: Bytes)

  datatype CmdTree = CmdTree(nodes: seq<CmdNode>, root: nat)

  /**
    * The outcome for the session that asked: a list of names (empty for a torn tree, which
    * it cannot tell from a tree without commands), or the run-time fault of indexing the
    * nodes with a negative child.
    */
  datatype Listing = Names(names: seq<Bytes>) | Fault

  predicate HasRedirect(flags: Byte) {
    flags / 8 % 2 == 1
  }

  predicate HasSuggestions(flags: Byte) {
    flags / 16 % 2 == 1
  }

  predicate Named(kind: int) {
    kind == LITERAL || kind == ARGUMENT
  }

  // ---------------------------------------------------------------------------------
  // What the bytes mean
  // ---------------------------------------------------------------------------------

  function ChildrenAt(s: Bytes): Read<seq<int>> {
    var (count, t) :- VarIntAt(s);
    if count < 0 || count > MAX_NODES then Fail else RepeatAt(VarIntAt, count, [], t)
  }

  /** The fields behind an argument's name: a parser that can be walked past, and suggestions. */
  function ArgumentAt(flags: Byte, s: Bytes): Read<()> {
    var (parser, t) :- VarIntAt(s);
    if parser != GREEDY_STRING then Fail
    else
      var (_, u) :- VarIntAt(t);
      if !HasSuggestions(flags) then Got((), u)
      else
        var (_, v) :- StringAt(u);
        Got((), v)
  }

  function NodeTailAt(flags: Byte, children: seq<int>, s: Bytes): Read<CmdNode> {
    var kind := flags % 4;
    if !Named(kind) then Got(CmdNode(kind, children, []), s)
    else
      var (name, t) :- StringAt(s);
      if kind == LITERAL then Got(CmdNode(kind, children, name), t)
      else
        var (_, u) :- ArgumentAt(flags, t);
        Got(CmdNode(kind, children, name), u)
  }

  function NodeAt(s: Bytes): Read<CmdNode> {
    var (flags, t) :- ByteAt(s);
    var (children, u) :- ChildrenAt(t);
    if !HasRedirect(flags) then NodeTailAt(flags, children, u)
    else
      var (_, v) :- VarIntAt(u);
      NodeTailAt(flags, children, v)
  }

  function RootAt(nodes: seq<CmdNode>, s: Bytes): Read<CmdTree> {
    var (root, t) :- VarIntAt(s);
    if root < 0 || root >= |nodes| then Fail else Got(CmdTree(nodes, root), t)
  }

  function NodesAndRootAt(n: nat, s: Bytes): Read<CmdTree> {
    var (nodes, t) :- RepeatAt(NodeAt, n, [], s);
    RootAt(nodes, t)
  }

  function TreeAt(s: Bytes): Read<CmdTree> {
    var (n, t) :- VarIntAt(s);
    if n <= 0 || n > MAX_NODES then Fail else NodesAndRootAt(n, t)
  }

  /** The name a child index contributes: none, or that of a named literal in range. */
  function NameOf(nodes: seq<CmdNode>, c: int): seq<Bytes> {
    if 0 <= c < |nodes| && nodes[c].kind == LITERAL && nodes[c].name != [] then [nodes[c].name] else []
  }

  /** The non-empty names of the literals among some child indices, in their order. */
  function LiteralNames(nodes: seq<CmdNode>, children: seq<int>): seq<Bytes> {
    if children == [] then []
    else LiteralNames(nodes, children[..|children| - 1]) + NameOf(nodes, children[|children| - 1])
  }

  predicate NoNegative(children: seq<int>) {
    forall c :: c in children ==> c >= 0
  }

  function RootChildren(t: CmdTree): seq<int> {
    if t.root < |t.nodes| then t.nodes[t.root].children else []
  }

  function ListingOf(t: CmdTree): Listing {
    if NoNegative(RootChildren(t)) then Names(Sort(LiteralNames(t.nodes, RootChildren(t)))) else Fault
  }

  function CommandListing(s: Bytes): Listing {
    match TreeAt(s)
    case Fail => Names([])
    case Got(t, _) => ListingOf(t)
  }

  // ---------------------------------------------------------------------------------
  // The decoder
  // ---------------------------------------------------------------------------------

  method ReadChildren(r: Reader) returns (children: Option<seq<int>>)
    requires r.Valid()
    modifies r`pos
    ensures r.Valid()
    ensures match children
            case None => ChildrenAt(old(r.Rest())).Fail?
            case Some(cs) => ChildrenAt(old(r.Rest())) == Got(cs, r.Rest())
  {
    hide VarIntAt;
    var c := r.ReadVarInt();
    if c.None? || c.value < 0 || c.value > MAX_NODES {
      return None;
    }
    ghost var start := r.Rest();
    var cs: seq<int> := [];
    for j := 0 to c.value
      invariant r.Valid()
      invariant RepeatAt(VarIntAt, c.value, [], start) == RepeatAt(VarIntAt, c.value - j, cs, r.Rest())
    {
      var idx := r.ReadVarInt();
      if idx.None? {
        return None;
      }
      cs := cs + [idx.value];
    }
    return Some(cs);
  }

  method ReadNode(r: Reader) returns (node: Option<CmdNode>)
    requires r.Valid()
    modifies r`pos
    ensures r.Valid()
    ensures match node
            case None => NodeAt(old(r.Rest())).Fail?
            case Some(n) => NodeAt(old(r.Rest())) == Got(n, r.Rest())
  {
    hide VarIntAt, StringAt, ChildrenAt;
    var flags := r.ReadByte();
    if flags.None? {
      return None;
    }
    var kind := flags.value % 4;
    var children := ReadChildren(r);
    if children.None? {
      return None;
    }
    if HasRedirect(flags.value) {
      var redirect := r.ReadVarInt();
      if redirect.None? {
        return None;
      }
    }
    var name: Bytes := [];
    if kind == LITERAL || kind == ARGUMENT {
      var text := r.ReadString();
      if text.None? {
        return None;
      }
      name := text.value;
    }
    if kind == ARGUMENT {
      var parser := r.ReadVarInt();
      if parser.None? {
        return None;
      }
      if parser.value == GREEDY_STRING {
        var properties := r.ReadVarInt();
        if properties.None? {
          return None;
        }
      } else {
        return None;
      }
      if HasSuggestions(flags.value) {
        var suggestions := r.ReadString();
        if suggestions.None? {
          return None;
        }
      }
    }
    return Some(CmdNode(kind, children.value, name));
  }

  method ReadNodes(r: Reader, n: nat) returns (read: Option<seq<CmdNode>>)
    requires r.Valid()
    modifies r`pos
    ensures r.Valid()
    ensures match read
            case None => RepeatAt(NodeAt, n, [], old(r.Rest())).Fail?
            case Some(ns) => RepeatAt(NodeAt, n, [], old(r.Rest())) == Got(ns, r.Rest())
  {
    hide NodeAt;
    ghost var start := r.Rest();
    var nodes := new CmdNode[n](_ => CmdNode(0, [], []));
    for i := 0 to n
      invariant r.Valid()
      invariant RepeatAt(NodeAt, n, [], start) == RepeatAt(NodeAt, n - i, nodes[..i], r.Rest())
    {
      var node := ReadNode(r);
      if node.None? {
        return None;
      }
      ghost var before := nodes[..i];
      nodes[i] := node.value;
      assert nodes[..i + 1] == before + [node.value];
    }
    assert nodes[..n] == nodes[..];
    return Some(nodes[..]);
  }

  /** Everything up to and including the root index. */
  method ReadTree(r: Reader) returns (tree: Option<CmdTree>)
    requires r.Valid()
    modifies r`pos
    ensures r.Valid()
    ensures match tree
            case None => TreeAt(old(r.Rest())).Fail?
            case Some(t) => TreeAt(old(r.Rest())) == Got(t, r.Rest())
  {
    hide VarIntAt, NodeAt, RepeatAt;
    var n := r.ReadVarInt();
    if n.None? || n.value <= 0 || n.value > MAX_NODES {
      return None;
    }
    var nodes := ReadNodes(r, n.value);
    if nodes.None? {
      return None;
    }
    ghost var behind := r.Rest();
    var root := r.ReadVarInt();
    if root.None? || root.value < 0 || root.value >= |nodes.value| {
      assert RootAt(nodes.value, behind).Fail?;
      return None;
    }
    return Some(CmdTree(nodes.value, root.value));
  }

  /** The names under the root, sorted; a fault at the first negative child index. */
  method ListNames(tree: CmdTree) returns (listing: Listing)
    ensures listing == ListingOf(tree)
  {
    var nodes, children := tree.nodes, RootChildren(tree);
    var names: seq<Bytes> := [];
    for k := 0 to |children|
      invariant forall j :: 0 <= j < k ==> children[j] >= 0
      invariant names == LiteralNames(nodes, children[..k])
    {
      var c := children[k];
      assert children[..k + 1][..k] == children[..k] && children[..k + 1][k] == c;
      if c < |nodes| {
        if c < 0 {
          assert c in children;
          return Fault;
        }
        if nodes[c].kind == LITERAL && nodes[c].name != [] {
          names := names + [nodes[c].name];
        }
      }
    }
    assert children[..|children|] == children;
    return Names(Sort(names));
  }

  method CommandNames(tree: Bytes) returns (listing: Listing)
    ensures listing == CommandListing(tree)
  {
    var r := new Reader(tree);
    var read := ReadTree(r);
    if read.None? {
      return Names([]);
    }
    listing := ListNames(read.value);
  }

  // ---------------------------------------------------------------------------------
  // Decoding undoes encoding
  // ---------------------------------------------------------------------------------

  /**
    * A node with every field it may have; its kind and the three booleans say which of them
    * travel. From here on the wire format is written out in numbers, apart from the decoder's
    * names for them.
    */
  datatype WireNode = WireNode(
    kind: Byte, executable: bool, redirecting: bool, suggesting: bool, spare: Byte,
    children: seq<int>, redirect: int, name: Bytes, parser: int, properties: int, suggestions: Bytes)

  /** Every field fits the width it travels in. */
  predicate Encodable(n: WireNode) {
    && n.kind < 4 && n.spare < 8
    && |n.children| < TWO_TO_31 && (forall c :: c in n.children ==> IsInt32(c))
    && IsInt32(n.redirect) && IsInt32(n.parser) && IsInt32(n.properties)
    && |n.name| < TWO_TO_31 && |n.suggestions| < TWO_TO_31
  }

  type Node32 = n: WireNode | Encodable(n) witness WireNode(0, false, false, false, 0, [], 0, [], 0, 0, [])

  /** The flag byte: two bits of kind, three booleans, three bits without a meaning. */
  function FlagsOf(n: Node32): Byte {
    n.kind + (if n.executable then 4 else 0) + (if n.redirecting then 8 else 0)
    + (if n.suggesting then 16 else 0) + 32 * n.spare
  }

  lemma FlagsSplit(n: Node32)
    ensures FlagsOf(n) % 4 == n.kind
    ensures HasRedirect(FlagsOf(n)) == n.redirecting && HasSuggestions(FlagsOf(n)) == n.suggesting
  {
    var low := n.kind + if n.executable then 4 else 0;
    var r, s := if n.redirecting then 1 else 0, if n.suggesting then 1 else 0;
    Bits(low, r, s, n.spare);
  }

  lemma Bits(low: nat, r: nat, s: nat, spare: nat)
    requires low < 8 && r < 2 && s < 2
    ensures var flags := low + 8 * r + 16 * s + 32 * spare;
            flags % 4 == low % 4 && flags / 8 % 2 == r && flags / 16 % 2 == s
  {
    Eighths(low, r + 2 * s + 4 * spare);
    Halves(r, s + 2 * spare);
    Sixteenths(low + 8 * r, s + 2 * spare);
    Halves(s, spare);
    Quarters(low, 2 * r + 4 * s + 8 * spare);
  }

  lemma Halves(low: nat, high: nat)
    requires low < 2
    ensures (low + 2 * high) % 2 == low
  {
  }

  lemma Quarters(low: nat, high: nat)
    ensures (low + 4 * high) % 4 == low % 4
  {
  }

  lemma Eighths(low: nat, high: nat)
    requires low < 8
    ensures (low + 8 * high) / 8 == high
  {
  }

  lemma Sixteenths(low: nat, high: nat)
    requires low < 16
    ensures (low + 16 * high) / 16 == high
  {
  }

  function EncodeInt32(x: Int32): Bytes {
    EncodeVarInt(x)
  }

  function EncodeChildren(cs: seq<Int32>): Bytes
    requires |cs| < TWO_TO_31
  {
    EncodeVarInt(|cs|) + EncodeAll(EncodeInt32, cs)
  }

  function EncodeArgument(n: Node32): Bytes {
    EncodeVarInt(n.parser) + EncodeVarInt(n.properties)
    + if n.suggesting then EncodeString(n.suggestions) else []
  }

  /** Literals (1) and arguments (2) have a name, arguments a parser too. */
  function EncodeTail(n: Node32): Bytes {
    if n.kind != 1 && n.kind != 2 then []
    else EncodeString(n.name) + if n.kind == 2 then EncodeArgument(n) else []
  }

  function EncodeNode(n: Node32): Bytes {
    [FlagsOf(n)] + EncodeChildren(n.children)
    + (if n.redirecting then EncodeVarInt(n.redirect) else []) + EncodeTail(n)
  }

  function EncodeTree(nodes: seq<Node32>, root: Int32): Bytes
    requires |nodes| < TWO_TO_31
  {
    EncodeVarInt(|nodes|) + EncodeAll(EncodeNode, nodes) + EncodeVarInt(root)
  }

  /** The nodes the decoder can walk past: few enough children, and greedy-string arguments. */
  predicate Walkable(n: Node32) {
    |n.children| <= 4096 && (n.kind == 2 ==> n.parser == 5)
  }

  function Kept(n: Node32): CmdNode {
    CmdNode(n.kind, n.children, if n.kind == 1 || n.kind == 2 then n.name else [])
  }

  predicate WellFormed(nodes: seq<Node32>, root: Int32) {
    0 < |nodes| <= 4096 && (forall n :: n in nodes ==> Walkable(n)) && 0 <= root < |nodes|
  }

  lemma ChildrenRoundTrip(cs: seq<Int32>, rest: Bytes)
    requires |cs| < TWO_TO_31
    ensures ChildrenAt(EncodeChildren(cs) + rest) == if |cs| <= MAX_NODES then Got(cs, rest) else Fail
  {
    var tail := EncodeAll(EncodeInt32, cs) + rest;
    assert EncodeChildren(cs) + rest == EncodeVarInt(|cs|) + tail;
    VarIntRoundTrip(|cs|, tail);
    if |cs| <= MAX_NODES {
      forall v: Int32, x: Bytes ensures VarIntAt(EncodeInt32(v) + x) == Got(v, x) {
        VarIntRoundTrip(v, x);
      }
      RepeatRoundTrip(EncodeInt32, VarIntAt, (v: Int32) => true, (v: Int32) => v as int, cs, [], rest);
      assert [] + Images((v: Int32) => v as int, cs) == cs;
    }
  }

  lemma ArgumentRoundTrip(n: Node32, rest: Bytes)
    ensures ArgumentAt(FlagsOf(n), EncodeArgument(n) + rest) == if n.parser == 5 then Got((), rest) else Fail
  {
    hide FlagsOf, HasSuggestions;
    FlagsSplit(n);
    var last := if n.suggesting then EncodeString(n.suggestions) else [];
    assert EncodeArgument(n) + rest == EncodeVarInt(n.parser) + (EncodeVarInt(n.properties) + (last + rest));
    VarIntRoundTrip(n.parser, EncodeVarInt(n.properties) + (last + rest));
    VarIntRoundTrip(n.properties, last + rest);
    if n.suggesting {
      StringRoundTrip(n.suggestions, rest);
    } else {
      assert last + rest == rest;
    }
  }

  lemma TailRoundTrip(n: Node32, rest: Bytes)
    ensures NodeTailAt(FlagsOf(n), n.children, EncodeTail(n) + rest)
            == if n.kind == 2 && n.parser != 5 then Fail else Got(Kept(n), rest)
  {
    hide FlagsOf;
    FlagsSplit(n);
    if n.kind != 1 && n.kind != 2 {
      assert EncodeTail(n) + rest == rest;
    } else {
      var last := if n.kind == 2 then EncodeArgument(n) else [];
      assert EncodeTail(n) + rest == EncodeString(n.name) + (last + rest);
      StringRoundTrip(n.name, last + rest);
      ArgumentRoundTrip(n, rest);
      if n.kind == 1 {
        assert last + rest == rest;
      }
    }
  }

  lemma NodeRoundTrip(n: Node32, rest: Bytes)
    ensures NodeAt(EncodeNode(n) + rest) == if Walkable(n) then Got(Kept(n), rest) else Fail
  {
    hide FlagsOf, HasRedirect, ChildrenAt, VarIntAt, NodeTailAt, EncodeChildren, EncodeVarInt, EncodeTail;
    FlagsSplit(n);
    var tail := EncodeTail(n) + rest;
    var redirect := if n.redirecting then EncodeVarInt(n.redirect) else [];
    var s := EncodeNode(n) + rest;
    assert s == [FlagsOf(n)] + (EncodeChildren(n.children) + (redirect + tail));
    assert s[1..] == EncodeChildren(n.children) + (redirect + tail);
    ChildrenRoundTrip(n.children, redirect + tail);
    TailRoundTrip(n, rest);
    if n.redirecting {
      VarIntRoundTrip(n.redirect, tail);
    } else {
      assert redirect + tail == tail;
    }
  }

  lemma NodesRoundTrip(nodes: seq<Node32>, rest: Bytes)
    ensures RepeatAt(NodeAt, |nodes|, [], EncodeAll(EncodeNode, nodes) + rest)
            == if forall n :: n in nodes ==> Walkable(n) then Got(Images(Kept, nodes), rest) else Fail
  {
    forall n: Node32, x: Bytes
      ensures NodeAt(EncodeNode(n) + x) == if Walkable(n) then Got(Kept(n), x) else Fail
    {
      NodeRoundTrip(n, x);
    }
    RepeatRoundTrip(EncodeNode, NodeAt, Walkable, Kept, nodes, [], rest);
    assert [] + Images(Kept, nodes) == Images(Kept, nodes);
  }

  lemma NodesAndRootRoundTrip(nodes: seq<Node32>, root: Int32, rest: Bytes)
    ensures NodesAndRootAt(|nodes|, EncodeAll(EncodeNode, nodes) + (EncodeVarInt(root) + rest))
            == if (forall n :: n in nodes ==> Walkable(n)) && 0 <= root < |nodes|
               then Got(CmdTree(Images(Kept, nodes), root), rest) else Fail
  {
    NodesRoundTrip(nodes, EncodeVarInt(root) + rest);
    VarIntRoundTrip(root, rest);
  }

  lemma TreeAtBody(s: Bytes, n: nat, body: Bytes)
    requires VarIntAt(s) == Got(n, body)
    ensures TreeAt(s) == if n == 0 || n > MAX_NODES then Fail else NodesAndRootAt(n, body)
  {
  }

  /**
    * An encoded tree is read back, node by node, whatever bytes follow, exactly when it is
    * well-formed; any other encoded tree is torn.
    */
  lemma {:induction false} TreeRoundTrip(nodes: seq<Node32>, root: Int32, rest: Bytes)
    requires |nodes| < TWO_TO_31
    ensures TreeAt(EncodeTree(nodes, root) + rest)
            == if WellFormed(nodes, root) then Got(CmdTree(Images(Kept, nodes), root), rest) else Fail
  {
    var body := EncodeAll(EncodeNode, nodes) + (EncodeVarInt(root) + rest);
    FourParts(EncodeVarInt(|nodes|), EncodeAll(EncodeNode, nodes), EncodeVarInt(root), rest);
    VarIntRoundTrip(|nodes|, body);
    TreeAtBody(EncodeTree(nodes, root) + rest, |nodes|, body);
    NodesAndRootRoundTrip(nodes, root, rest);
  }

  lemma KeptChildren(n: Node32)
    ensures Kept(n).children == n.children
  {
  }

  /** Node c is a literal (1) of that name. */
  predicate NamedLiteral(nodes: seq<Node32>, c: int, name: Bytes) {
    0 <= c < |nodes| && nodes[c].kind == 1 && nodes[c].name == name
  }

  /** The places among some child indices at which a literal of a name stands. */
  ghost function Places(nodes: seq<Node32>, children: seq<int>, name: Bytes): set<int> {
    set k | 0 <= k < |children| && NamedLiteral(nodes, children[k], name)
  }

  lemma NameOfEncoded(nodes: seq<Node32>, c: int, name: Bytes)
    ensures multiset(NameOf(Images(Kept, nodes), c))[name] == if name != [] && NamedLiteral(nodes, c, name) then 1 else 0
  {
    assert 0 <= c < |nodes| ==> Images(Kept, nodes)[c] == Kept(nodes[c]);
  }

  lemma OneMorePlace(nodes: seq<Node32>, init: seq<int>, c: int, name: Bytes)
    ensures |Places(nodes, init + [c], name)|
            == |Places(nodes, init, name)| + if NamedLiteral(nodes, c, name) then 1 else 0
  {
    var more := Places(nodes, init + [c], name);
    if NamedLiteral(nodes, c, name) {
      assert more == Places(nodes, init, name) + {|init|};
    } else {
      assert more == Places(nodes, init, name);
    }
  }

  lemma {:induction false} NamesByPlace(nodes: seq<Node32>, children: seq<int>, name: Bytes)
    ensures multiset(LiteralNames(Images(Kept, nodes), children))[name]
            == if name == [] then 0 else |Places(nodes, children, name)|
  {
    hide NameOf, Kept, NamedLiteral;
    if children == [] {
    } else {
      hide Places;
      var n := |children| - 1;
      NamesByPlace(nodes, children[..n], name);
      NameOfEncoded(nodes, children[n], name);
      OneMorePlace(nodes, children[..n], children[n], name);
      assert children[..n] + [children[n]] == children;
    }
  }

  /**
    * The names of an encoded tree: nothing when it is not well-formed; a fault when its root
    * has a negative child; otherwise they are sorted, none is empty, and each is listed once
    * for every place among the root's children at which a literal of that name stands.
    */
  lemma {:induction false} ListingOfEncoding(nodes: seq<Node32>, root: Int32, rest: Bytes)
    requires |nodes| < TWO_TO_31
    ensures var listing := CommandListing(EncodeTree(nodes, root) + rest);
            if !WellFormed(nodes, root) then listing == Names([])
            else if exists c :: c in nodes[root].children && c < 0 then listing == Fault
            else && listing.Names? && Sorted(listing.names)
                 && forall name: Bytes :: multiset(listing.names)[name]
                      == if name == [] then 0 else |Places(nodes, nodes[root].children, name)|
  {
    hide TreeAt, EncodeTree, LiteralNames, Walkable, Kept, Places;
    TreeRoundTrip(nodes, root, rest);
    if WellFormed(nodes, root) {
      var children := nodes[root].children;
      assert Kept(nodes[root]).children == children by { KeptChildren(nodes[root]); }
      assert RootChildren(CmdTree(Images(Kept, nodes), root)) == children;
      forall name: Bytes
        ensures multiset(LiteralNames(Images(Kept, nodes), children))[name]
                == if name == [] then 0 else |Places(nodes, children, name)|
      {
        NamesByPlace(nodes, children, name);
      }
    }
  }

  // ---------------------------------------------------------------------------------
  // Cut trees
  // ---------------------------------------------------------------------------------

  lemma ChildrenStable()
    ensures Stable(ChildrenAt) && Shrinks(ChildrenAt)
  {
    VarIntStable();
    forall s: Bytes, x: Bytes | ChildrenAt(s).Got?
      ensures ChildrenAt(s + x) == Got(ChildrenAt(s).value, ChildrenAt(s).rest + x)
    {
      StableAt(VarIntAt, s, x);
      RepeatStable(VarIntAt, VarIntAt(s).value, [], VarIntAt(s).rest, x);
    }
    forall s: Bytes | ChildrenAt(s).Got? ensures |ChildrenAt(s).rest| <= |s| {
      RepeatStable(VarIntAt, VarIntAt(s).value, [], VarIntAt(s).rest, []);
    }
  }

  lemma ArgumentStable(flags: Byte, s: Bytes, x: Bytes)
    requires ArgumentAt(flags, s).Got?
    ensures ArgumentAt(flags, s + x) == Got((), ArgumentAt(flags, s).rest + x)
    ensures |ArgumentAt(flags, s).rest| <= |s|
  {
    VarIntStable();
    StringStable();
    StableAt(VarIntAt, s, x);
    var t := VarIntAt(s).rest;
    StableAt(VarIntAt, t, x);
    StableAt(StringAt, VarIntAt(t).rest, x);
  }

  lemma TailStable(flags: Byte, children: seq<int>, s: Bytes, x: Bytes)
    requires NodeTailAt(flags, children, s).Got?
    ensures var r := NodeTailAt(flags, children, s);
            NodeTailAt(flags, children, s + x) == Got(r.value, r.rest + x) && |r.rest| <= |s|
  {
    if Named(flags % 4) {
      StringStable();
      StableAt(StringAt, s, x);
      if flags % 4 == ARGUMENT {
        ArgumentStable(flags, StringAt(s).rest, x);
      }
    }
  }

  lemma NodeStableAt(s: Bytes, x: Bytes)
    requires NodeAt(s).Got?
    ensures NodeAt(s + x) == Got(NodeAt(s).value, NodeAt(s).rest + x) && |NodeAt(s).rest| <= |s|
  {
    ByteStable();
    ChildrenStable();
    VarIntStable();
    StableAt(ByteAt, s, x);
    var flags, t := s[0], s[1..];
    StableAt(ChildrenAt, t, x);
    var children, u := ChildrenAt(t).value, ChildrenAt(t).rest;
    if HasRedirect(flags) {
      StableAt(VarIntAt, u, x);
      TailStable(flags, children, VarIntAt(u).rest, x);
    } else {
      TailStable(flags, children, u, x);
    }
  }

  lemma NodeStable()
    ensures Stable(NodeAt) && Shrinks(NodeAt)
  {
    forall s: Bytes, x: Bytes | NodeAt(s).Got?
      ensures NodeAt(s + x) == Got(NodeAt(s).value, NodeAt(s).rest + x)
    {
      NodeStableAt(s, x);
    }
    forall s: Bytes | NodeAt(s).Got? ensures |NodeAt(s).rest| <= |s| {
      NodeStableAt(s, []);
    }
  }

  lemma TreeStableAt(s: Bytes, x: Bytes)
    requires TreeAt(s).Got?
    ensures TreeAt(s + x) == Got(TreeAt(s).value, TreeAt(s).rest + x) && |TreeAt(s).rest| <= |s|
  {
    VarIntStable();
    NodeStable();
    StableAt(VarIntAt, s, x);
    var n, t := VarIntAt(s).value, VarIntAt(s).rest;
    RepeatStable(NodeAt, n, [], t, x);
    StableAt(VarIntAt, RepeatAt(NodeAt, n, [], t).rest, x);
  }

  /** Any tree cut before the end of its root index lists nothing, well-formed or not. */
  lemma CutTreeListsNothing(s: Bytes, k: nat)
    requires TreeAt(s).Got? && k < |s| - |TreeAt(s).rest|
    ensures CommandListing(s[..k]) == Names([])
  {
    forall a: Bytes, x: Bytes | TreeAt(a).Got?
      ensures TreeAt(a + x) == Got(TreeAt(a).value, TreeAt(a).rest + x)
    {
      TreeStableAt(a, x);
    }
    forall a: Bytes | TreeAt(a).Got? ensures |TreeAt(a).rest| <= |a| {
      TreeStableAt(a, []);
    }
    CutRejected(TreeAt, s, k);
  }

  /** Every proper prefix of an encoded tree lists nothing. */
  lemma PrefixListsNothing(nodes: seq<Node32>, root: Int32, k: nat)
    requires |nodes| < TWO_TO_31
    requires WellFormed(nodes, root) && k < |EncodeTree(nodes, root)|
    ensures CommandListing(EncodeTree(nodes, root)[..k]) == Names([])
  {
    assert EncodeTree(nodes, root) + [] == EncodeTree(nodes, root);
    TreeRoundTrip(nodes, root, []);
    CutTreeListsNothing(EncodeTree(nodes, root), k);
  }

  // ---------------------------------------------------------------------------------
  // Renumbering
  // ---------------------------------------------------------------------------------

  ghost predicate IsPermutation(p: seq<nat>, n: nat) {
    && |p| == n
    && (forall i :: 0 <= i < n ==> p[i] < n)
    && (forall i, j :: 0 <= i < j < n ==> p[i] != p[j])
    && (forall m :: 0 <= m < n ==> m in p)
  }

  /** A child index under new node numbers; an index of no node stays as it is. */
  function Relabel(p: seq<nat>, c: int): int {
    if 0 <= c < |p| then p[c] else c
  }

  /**
    * b is a with node i renumbered p[i] and the root's children relabelled, in any order.
    * All flags but the kind, redirects, suggestions and argument properties are free, and so
    * are the children of other nodes as long as there are not too many of them to be read.
    */
  ghost predicate Renumbered(p: seq<nat>, a: seq<Node32>, rootA: Int32, b: seq<Node32>, rootB: Int32) {
    && |a| == |b| && IsPermutation(p, |a|)
    && 0 <= rootA < |a| && rootB == p[rootA]
    && (forall i :: 0 <= i < |a| ==>
          && b[p[i]].kind == a[i].kind && b[p[i]].name == a[i].name && b[p[i]].parser == a[i].parser
          && (|b[p[i]].children| <= 4096 <==> |a[i].children| <= 4096))
    && multiset(b[rootB].children) == multiset(Images(c => Relabel(p, c), a[rootA].children))
  }

  lemma {:induction false} LiteralNamesOfRelabelled(
    p: seq<nat>, a: seq<CmdNode>, b: seq<CmdNode>, children: seq<int>
  )
    requires |a| == |b| && IsPermutation(p, |a|)
    requires forall i :: 0 <= i < |a| ==> b[p[i]].kind == a[i].kind && b[p[i]].name == a[i].name
    ensures LiteralNames(b, Images(c => Relabel(p, c), children)) == LiteralNames(a, children)
  {
    if children == [] {
    } else {
      var init, last := children[..|children| - 1], children[|children| - 1];
      var image := Images(c => Relabel(p, c), children);
      assert image[..|children| - 1] == Images(c => Relabel(p, c), init);
      LiteralNamesOfRelabelled(p, a, b, init);
    }
  }

  ghost function NameBag(nodes: seq<CmdNode>, children: seq<int>): multiset<Bytes> {
    if children == [] then multiset{}
    else NameBag(nodes, children[..|children| - 1]) + multiset(NameOf(nodes, children[|children| - 1]))
  }

  lemma {:induction false} NameBagOfNames(nodes: seq<CmdNode>, children: seq<int>)
    ensures NameBag(nodes, children) == multiset(LiteralNames(nodes, children))
  {
    if children == [] {
    } else {
      NameBagOfNames(nodes, children[..|children| - 1]);
    }
  }

  lemma {:induction false} NameBagDetach(nodes: seq<CmdNode>, s: seq<int>, k: nat)
    requires k < |s|
    ensures NameBag(nodes, s) == multiset(NameOf(nodes, s[k])) + NameBag(nodes, Without(s, k))
  {
    var n := |s| - 1;
    if k == n {
      assert Without(s, k) == s[..n];
    } else {
      WithoutLast(s, k);
      NameBagDetach(nodes, s[..n], k);
    }
  }

  lemma LiteralNamesOrderBlind(nodes: seq<CmdNode>, s: seq<int>, t: seq<int>)
    requires multiset(s) == multiset(t)
    ensures multiset(LiteralNames(nodes, s)) == multiset(LiteralNames(nodes, t))
  {
    var fold := (cs: seq<int>) => NameBag(nodes, cs);
    var step := (c: int, names: multiset<Bytes>) => multiset(NameOf(nodes, c)) + names;
    forall cs: seq<int>, k | 0 <= k < |cs| ensures fold(cs) == step(cs[k], fold(Without(cs, k))) {
      NameBagDetach(nodes, cs, k);
    }
    OrderBlind(fold, step, s, t);
    NameBagOfNames(nodes, s);
    NameBagOfNames(nodes, t);
  }

  lemma RenumberedWellFormed(p: seq<nat>, a: seq<Node32>, rootA: Int32, b: seq<Node32>, rootB: Int32)
    requires Renumbered(p, a, rootA, b, rootB)
    ensures WellFormed(a, rootA) == WellFormed(b, rootB)
  {
    forall i | 0 <= i < |a| ensures Walkable(b[p[i]]) == Walkable(a[i]) {
    }
    if WellFormed(a, rootA) {
      forall n | n in b ensures Walkable(n) {
        var m :| 0 <= m < |b| && b[m] == n;
        assert m in p;
      }
    }
    if WellFormed(b, rootB) {
      forall n | n in a ensures Walkable(n) {
        var i :| 0 <= i < |a| && a[i] == n;
        assert b[p[i]] in b;
      }
    }
  }

  lemma SameElements(s: seq<int>, t: seq<int>)
    requires multiset(s) == multiset(t)
    ensures forall c :: c in s <==> c in t
  {
    forall c ensures c in s <==> c in t {
      assert c in multiset(s) <==> c in multiset(t);
    }
  }

  lemma RenumberedNegatives(p: seq<nat>, cs: seq<int>, ds: seq<int>)
    requires multiset(ds) == multiset(Images(c => Relabel(p, c), cs))
    ensures NoNegative(cs) == NoNegative(ds)
  {
    var image := Images(c => Relabel(p, c), cs);
    SameElements(ds, image);
    if NoNegative(cs) {
      forall d | d in image ensures d >= 0 {
        var i :| 0 <= i < |image| && image[i] == d;
        assert cs[i] in cs;
      }
    }
    if NoNegative(ds) {
      forall i | 0 <= i < |cs| ensures cs[i] >= 0 {
        assert image[i] in ds;
      }
    }
  }

  /** How the nodes are numbered, and the order of the root's children, cannot be seen in the names. */
  lemma RenumberingUnseen(
    p: seq<nat>, a: seq<Node32>, rootA: Int32, b: seq<Node32>, rootB: Int32, restA: Bytes, restB: Bytes
  )
    requires |a| < TWO_TO_31 && |b| < TWO_TO_31
    requires Renumbered(p, a, rootA, b, rootB)
    ensures CommandListing(EncodeTree(a, rootA) + restA) == CommandListing(EncodeTree(b, rootB) + restB)
  {
    hide TreeAt, EncodeTree, LiteralNames, Walkable, NoNegative;
    TreeRoundTrip(a, rootA, restA);
    TreeRoundTrip(b, rootB, restB);
    RenumberedWellFormed(p, a, rootA, b, rootB);
    if WellFormed(a, rootA) {
      var ka, kb := Images(Kept, a), Images(Kept, b);
      var cs, ds := a[rootA].children, b[rootB].children;
      RenumberedNegatives(p, cs, ds);
      LiteralNamesOfRelabelled(p, ka, kb, cs);
      LiteralNamesOrderBlind(kb, ds, Images(c => Relabel(p, c), cs));
      SortedUnique(Sort(LiteralNames(ka, cs)), Sort(LiteralNames(kb, ds)));
    }
  }
}
