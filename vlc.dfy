// The prefix-code (VLC) tree of codec/vlc_coding.c: building it from a
// table of codes, looking codes up, and decoding symbols from a bit reader.
//
// A tree is a value here: `vlc_tree_add_node` updates the nodes it walks
// through in place, which the model states as a function from the old tree
// to the new one.  The functions follow the C recursion on (bits, count);
// the path functions `Lookup`, `Insert` and `WalkLeaf` say the same on the
// sequence of code bits, and the lemmas connect the two.

module Vlc {
  import opened MmfUtil
  import opened CInt
  import opened BitSeq
  import opened Bitstream

  /** A `VLCTreeNode`: its symbol and its two branches; `Nil` is a null branch. */
  datatype Tree = Nil | Node(symbol: byte, zero: Tree, one: Tree)

  /** A freshly allocated (zeroed) node that then receives a symbol. */
  function Leaf(symbol: byte): Tree
  {
    Node(symbol, Nil, Nil)
  }

  /** A node with neither branch: where decoding stops. */
  predicate Childless(t: Tree)
    requires t.Node?
  {
    t.zero.Nil? && t.one.Nil?
  }

  /** `branches[dir]`, the direction given as a bit. */
  function Branch(t: Tree, b: bool): Tree
    requires t.Node?
  {
    if b then t.one else t.zero
  }

  /** The node with `branches[dir]` replaced. */
  function WithBranch(t: Tree, b: bool, c: Tree): (r: Tree)
    requires t.Node?
    ensures r.Node? && r.symbol == t.symbol
    ensures Branch(r, b) == c && Branch(r, !b) == Branch(t, !b)
  {
    if b then t.(one := c) else t.(zero := c)
  }

  /** A `VLCPrefixEntry`: a code of `count` bits with value `bits`, and its symbol. */
  datatype Entry = Entry(bits: nat, count: int8, symbol: byte)

  /**
   * A code the tree functions accept: at least one bit, at most 32 (wider
   * shifts are undefined in the C), and a value that fits its width.
   */
  function ValidCode(bits: nat, count: int): (r: bool)
    ensures r ==> bits < Pow2(32)
  {
    if 1 <= count <= 32 then
      Pow2Monotone(count, 32);
      bits < Pow2(count)
    else false
  }

  /** The bits of an entry's code, first bit first (none for a count below 1). */
  function PathOf(e: Entry): seq<bool>
  {
    if e.count <= 0 then [] else Digits(e.bits, e.count)
  }

  /** No code in the table is a prefix of another one (or equal to it). */
  predicate PrefixFree(table: seq<Entry>)
  {
    && (forall i | 0 <= i < |table| :: ValidCode(table[i].bits, table[i].count))
    && (forall i, j | 0 <= i < |table| && 0 <= j < |table| && i != j :: !(PathOf(table[i]) <= PathOf(table[j])))
  }

  // ---------------------------------------------------------------------
  // vlc_tree_add_node
  // ---------------------------------------------------------------------

  /**
   * `vlc_tree_add_node(entry, symbol, bits, count)`: the code and the tree as
   * the call leaves it.  A count of 0 or less is INVALIDARG; a direction
   * that is not 0 or 1 indexes past `branches` and a count above 32 shifts
   * past the width of the operands, both undefined.  On the way down a
   * missing branch is created with symbol 0 (the C calls itself with
   * count 1), and the last bit installs a fresh leaf, replacing whatever
   * hung there.
   */
  function AddNode(t: Tree, symbol: byte, bits: nat, count: int): (r: (Rc, Tree))
    requires t.Node?
    ensures r.1.Node?
    decreases count
  {
    if count <= 0 then (InvalidArg, t)
    else if count == 1 then
      if bits >= 2 then (Undefined, t)
      else (Ok, WithBranch(t, bits == 1, Leaf(symbol)))
    else if count > 32 then (Undefined, t)
    else
      var dir := Shr(bits, count - 1);
      if dir >= 2 then (Undefined, t)
      else
        var b := dir == 1;
        var t1 := if Branch(t, b).Nil? then WithBranch(t, b, Leaf(0)) else t;
        var r := AddNode(Branch(t1, b), symbol, LowBits(bits, count - 1), count - 1);
        (r.0, WithBranch(t1, b, r.1))
  }

  /** The node a path leads to, or `Nil` when a branch on the way is missing. */
  function Lookup(t: Tree, p: seq<bool>): Tree
    decreases |p|
  {
    if |p| == 0 || t.Nil? then t else Lookup(Branch(t, p[0]), p[1..])
  }

  /**
   * Insertion of a leaf at the end of a path, on the sequence of code bits:
   * missing nodes on the way are created with symbol 0.
   */
  function Insert(t: Tree, p: seq<bool>, symbol: byte): (r: Tree)
    requires t.Node? && |p| >= 1
    ensures r.Node?
    decreases |p|
  {
    if |p| == 1 then WithBranch(t, p[0], Leaf(symbol))
    else
      var c := Branch(t, p[0]);
      WithBranch(t, p[0], Insert(if c.Nil? then Leaf(0) else c, p[1..], symbol))
  }

  /** The codes `vlc_tree_add_node` accepts, and what it does with a valid one. */
  lemma {:induction false} AddNodeIsInsert(t: Tree, symbol: byte, bits: nat, count: int)
    requires t.Node? && ValidCode(bits, count)
    ensures AddNode(t, symbol, bits, count) == (Ok, Insert(t, Digits(bits, count), symbol))
    decreases count
  {
    var p := Digits(bits, count);
    if count == 1 {
      DigitsTop(bits, 0);
    } else {
      DigitsTop(bits, count - 1);
      LowBitsIsMod(bits, count - 1);
      AddNodeIsInsert(if Branch(t, p[0]).Nil? then Leaf(0) else Branch(t, p[0]), symbol, LowBits(bits, count - 1), count - 1);
      assert p[1..] == Digits(LowBits(bits, count - 1), count - 1);
    }
  }

  /** The error cases of `vlc_tree_add_node`: it fails exactly on an invalid code. */
  lemma {:induction false} AddNodeRejects(t: Tree, symbol: byte, bits: nat, count: int)
    requires t.Node?
    ensures var r := AddNode(t, symbol, bits, count);
      && (count <= 0 <==> r.0 == InvalidArg)
      && (count >= 1 && !ValidCode(bits, count) <==> r.0 == Undefined)
      && (ValidCode(bits, count) <==> r.0 == Ok)
    decreases count
  {
    if ValidCode(bits, count) {
      AddNodeIsInsert(t, symbol, bits, count);
    } else if count == 1 {
      assert Pow2(1) == 2;
    } else if 2 <= count <= 32 {
      ShrIsDiv(bits, count - 1);
      assert Pow2(count) == 2 * Pow2(count - 1);
      if bits >= Pow2(count) {
        DivAtLeast(bits, Pow2(count - 1));
      }
    }
  }

  lemma DivAtLeast(v: nat, m: nat)
    requires m > 0 && v >= 2 * m
    ensures v / m >= 2
  {
  }

  /** An inserted leaf is found at the end of its path. */
  lemma {:induction false} InsertFinds(t: Tree, p: seq<bool>, symbol: byte)
    requires t.Node? && |p| >= 1
    ensures Lookup(Insert(t, p, symbol), p) == Leaf(symbol)
    decreases |p|
  {
    if |p| > 1 {
      var c := Branch(t, p[0]);
      InsertFinds(if c.Nil? then Leaf(0) else c, p[1..], symbol);
    }
  }

  /** Insertion leaves alone every path that neither extends its path nor is a prefix of it. */
  lemma {:induction false} InsertKeeps(t: Tree, p: seq<bool>, q: seq<bool>, symbol: byte)
    requires t.Node? && |p| >= 1
    requires !(p <= q) && !(q <= p)
    ensures Lookup(Insert(t, p, symbol), q) == Lookup(t, q)
    decreases |p|
  {
    if |p| > 1 && |q| > 1 && p[0] == q[0] {
      var c := Branch(t, p[0]);
      var c' := if c.Nil? then Leaf(0) else c;
      assert p == [p[0]] + p[1..] && q == [q[0]] + q[1..];
      InsertKeeps(c', p[1..], q[1..], symbol);
    }
  }

  /** An insertion creates every node along its path. */
  lemma {:induction false} InsertMakesPath(t: Tree, p: seq<bool>, symbol: byte, k: nat)
    requires t.Node? && 1 <= |p| && k <= |p|
    ensures Lookup(Insert(t, p, symbol), p[..k]).Node?
    decreases |p|
  {
    if k > 0 && |p| > 1 {
      var c := Branch(t, p[0]);
      InsertMakesPath(if c.Nil? then Leaf(0) else c, p[1..], symbol, k - 1);
      assert p[..k][1..] == p[1..][..k - 1];
    }
  }

  // ---------------------------------------------------------------------
  // vlc_find_node and vlc_find_leaf
  // ---------------------------------------------------------------------

  /**
   * `vlc_find_node(entry, bits, count, &node)`: on OK the
   * node stored through `node`, which is null (`Nil`) when the last branch
   * is missing.  A missing branch higher up is dereferenced, which is
   * undefined; so are a direction past `branches` and a shift past 32 bits.
   */
  function FindNode(t: Tree, bits: nat, count: int): (r: (Rc, Tree))
    requires t.Node?
    ensures r.0 == Ok || r.0 == InvalidArg || r.0 == Undefined
    decreases count
  {
    if count <= 0 then (InvalidArg, Nil)
    else if count > 32 then (Undefined, Nil)
    else
      var dir := Shr(bits, count - 1);
      if dir >= 2 then (Undefined, Nil)
      else if count == 1 then (Ok, Branch(t, dir == 1))
      else
        var c := Branch(t, dir == 1);
        if c.Nil? then (Undefined, Nil)
        else FindNode(c, LowBits(bits, count - 1), count - 1)
  }

  /**
   * On a valid code `vlc_find_node` is the path lookup, as long as the
   * nodes above the last one exist; when one of them is missing the C
   * dereferences null.
   */
  lemma {:induction false} FindNodeIsLookup(t: Tree, bits: nat, count: int)
    requires t.Node? && ValidCode(bits, count)
    ensures var p, r := Digits(bits, count), FindNode(t, bits, count);
      && (Lookup(t, p[..count - 1]).Node? ==> r == (Ok, Lookup(t, p)))
      && (Lookup(t, p[..count - 1]).Nil? ==> r.0 == Undefined)
    decreases count
  {
    var p := Digits(bits, count);
    DigitsTop(bits, count - 1);
    var low := LowBits(bits, count - 1);
    var c := Branch(t, p[0]);
    if count > 1 {
      var q := Digits(low, count - 1);
      assert p == [p[0]] + q;
      assert p[..count - 1] == [p[0]] + q[..count - 2];
      assert Lookup(t, p[..count - 1]) == Lookup(c, q[..count - 2]);
      assert Lookup(t, p) == Lookup(c, q);
      if c.Node? {
        LowBitsIsMod(bits, count - 1);
        FindNodeIsLookup(c, low, count - 1);
      }
    }
  }

  /** A node added by `vlc_tree_add_node` is what `vlc_find_node` returns for its code. */
  lemma AddThenFind(t: Tree, symbol: byte, bits: nat, count: int)
    requires t.Node? && ValidCode(bits, count)
    ensures var a := AddNode(t, symbol, bits, count);
      a.0 == Ok && FindNode(a.1, bits, count) == (Ok, Leaf(symbol))
  {
    var p := Digits(bits, count);
    AddNodeIsInsert(t, symbol, bits, count);
    InsertFinds(t, p, symbol);
    InsertMakesPath(t, p, symbol, count - 1);
    FindNodeIsLookup(Insert(t, p, symbol), bits, count);
  }

  /** What `vlc_find_leaf` reports: the code, the leaf, and the `depth` it counted. */
  datatype Found = Found(rc: Rc, leaf: Tree, depth: nat)

  /**
   * `vlc_find_leaf(entry, path, count, &leaf, &depth)`: walk down the path,
   * most significant bit first, until a node without branches; `depth` is
   * the number of branches taken.  A negative count, and a path that ends
   * before a leaf, are FAIL; a missing branch on the way is dereferenced
   * (undefined), as are a direction past `branches` and a mask wider than
   * 32 bits.  The direction the C computes before these checks is only
   * evaluated where it is used.
   */
  function FindLeaf(t: Tree, path: nat, count: int): (r: Found)
    ensures r.rc == Ok || r.rc == Fail || r.rc == Undefined
    ensures r.rc == Ok ==> r.leaf.Node? && Childless(r.leaf) && r.depth <= count
    decreases if count < 0 then 0 else count
  {
    if count < 0 then Found(Fail, Nil, 0)
    else if t.Nil? then Found(Undefined, Nil, 0)
    else if Childless(t) then Found(Ok, t, 0)
    else if count == 0 then Found(Fail, Nil, 0)
    else if count > 32 then Found(Undefined, Nil, 0)
    else
      var dir := Shr(path, count - 1);
      if dir >= 2 then Found(Undefined, Nil, 0)
      else
        var r := FindLeaf(Branch(t, dir == 1), LowBits(path, count - 1), count - 1);
        r.(depth := r.depth + 1)
  }

  /** The leaf search on the sequence of path bits. */
  function WalkLeaf(t: Tree, p: seq<bool>): Found
    decreases |p|
  {
    if t.Nil? then Found(Undefined, Nil, 0)
    else if Childless(t) then Found(Ok, t, 0)
    else if |p| == 0 then Found(Fail, Nil, 0)
    else
      var r := WalkLeaf(Branch(t, p[0]), p[1..]);
      r.(depth := r.depth + 1)
  }

  /** On a path that fits its width, `vlc_find_leaf` is the walk along its bits. */
  lemma {:induction false} FindLeafIsWalk(t: Tree, path: nat, count: int)
    requires 0 <= count <= 32 && path < Pow2(count)
    ensures FindLeaf(t, path, count) == WalkLeaf(t, Digits(path, count))
    decreases count
  {
    if count > 0 && t.Node? && !Childless(t) {
      DigitsTop(path, count - 1);
      FindLeafIsWalk(Branch(t, Shr(path, count - 1) == 1), LowBits(path, count - 1), count - 1);
    }
  }

  /** A walk that finds a leaf found it at the end of the bits it consumed. */
  lemma {:induction false} WalkFound(t: Tree, p: seq<bool>)
    requires WalkLeaf(t, p).rc == Ok
    ensures var r := WalkLeaf(t, p);
      r.depth <= |p| && r.leaf == Lookup(t, p[..r.depth])
    decreases |p|
  {
    if t.Node? && !Childless(t) {
      WalkFound(Branch(t, p[0]), p[1..]);
      var d := WalkLeaf(Branch(t, p[0]), p[1..]).depth;
      assert p[..d + 1][1..] == p[1..][..d];
    }
  }

  /**
   * A walk along bits that begin with the code of a leaf stops at that
   * leaf, having consumed exactly the code.
   */
  lemma {:induction false} WalkToCode(t: Tree, code: seq<bool>, q: seq<bool>)
    requires code <= q
    requires Lookup(t, code).Node? && Childless(Lookup(t, code))
    ensures WalkLeaf(t, q) == Found(Ok, Lookup(t, code), |code|)
    decreases |code|
  {
    if |code| > 0 {
      assert t.Node? && !Childless(t);
      assert q[0] == code[0] && code[1..] <= q[1..];
      WalkToCode(Branch(t, code[0]), code[1..], q[1..]);
    }
  }

  // ---------------------------------------------------------------------
  // vlc_tree_create and vlc_tree_create2
  // ---------------------------------------------------------------------

  /**
   * The nodes added one after the other, stopping at the first code that
   * `vlc_tree_add_node` rejects.
   */
  function Build(t: Tree, table: seq<Entry>): (r: (Rc, Tree))
    requires t.Node?
    ensures r.1.Node?
    decreases |table|
  {
    if |table| == 0 then (Ok, t)
    else
      var a := AddNode(t, table[0].symbol, table[0].bits, table[0].count);
      if Failed(a.0) then a else Build(a.1, table[1..])
  }

  /** A table builds without error exactly when every code in it is valid. */
  lemma {:induction false} BuildOk(t: Tree, table: seq<Entry>)
    requires t.Node?
    ensures Build(t, table).0 == Ok <==> forall i | 0 <= i < |table| :: ValidCode(table[i].bits, table[i].count)
    ensures Build(t, table).0 != Ok ==> Build(t, table).0 == InvalidArg || Build(t, table).0 == Undefined
    decreases |table|
  {
    if |table| > 0 {
      var e := table[0];
      AddNodeRejects(t, e.symbol, e.bits, e.count);
      if ValidCode(e.bits, e.count) {
        BuildOk(AddNode(t, e.symbol, e.bits, e.count).1, table[1..]);
        assert forall i | 1 <= i < |table| :: table[i] == table[1..][i - 1];
      }
    }
  }

  /** Building from valid codes leaves alone every path unrelated to all of them. */
  lemma {:induction false} BuildKeeps(t: Tree, table: seq<Entry>, q: seq<bool>)
    requires t.Node?
    requires forall i | 0 <= i < |table| ::
      ValidCode(table[i].bits, table[i].count) && !(PathOf(table[i]) <= q) && !(q <= PathOf(table[i]))
    ensures Build(t, table).0 == Ok && Lookup(Build(t, table).1, q) == Lookup(t, q)
    decreases |table|
  {
    if |table| > 0 {
      var e := table[0];
      AddNodeIsInsert(t, e.symbol, e.bits, e.count);
      InsertKeeps(t, PathOf(e), q, e.symbol);
      BuildKeeps(Insert(t, PathOf(e), e.symbol), table[1..], q);
    }
  }

  /**
   * The tree built from a prefix-free table leads every code to a leaf with
   * its symbol and no branches, whatever the order of the entries.
   */
  lemma {:induction false} BuildFinds(t: Tree, table: seq<Entry>)
    requires t.Node? && PrefixFree(table)
    ensures Build(t, table).0 == Ok
    ensures forall i | 0 <= i < |table| :: Lookup(Build(t, table).1, PathOf(table[i])) == Leaf(table[i].symbol)
    decreases |table|
  {
    if |table| > 0 {
      var e := table[0];
      var rest := table[1..];
      var t1 := Insert(t, PathOf(e), e.symbol);
      AddNodeIsInsert(t, e.symbol, e.bits, e.count);
      assert PrefixFree(rest) by {
        assert forall i | 0 <= i < |rest| :: rest[i] == table[i + 1];
      }
      BuildFinds(t1, rest);
      assert forall i | 0 <= i < |rest| :: !(PathOf(rest[i]) <= PathOf(e)) && !(PathOf(e) <= PathOf(rest[i])) by {
        assert forall i | 0 <= i < |rest| :: rest[i] == table[i + 1];
      }
      BuildKeeps(t1, rest, PathOf(e));
      InsertFinds(t, PathOf(e), e.symbol);
      assert forall i | 1 <= i < |table| :: table[i] == rest[i - 1];
    }
  }

  /**
   * The entries `vlc_tree_create` reads from its three tables: the
   * `uint8_t` bit counts become the `int8_t` parameter of
   * `vlc_tree_add_node`.
   */
  function Table(symbols: seq<byte>, codes: seq<nat>, counts: seq<byte>, elementCount: int): (table: seq<Entry>)
    requires elementCount <= |symbols| && elementCount <= |codes| && elementCount <= |counts|
    ensures |table| == if elementCount < 0 then 0 else elementCount
  {
    if elementCount <= 0 then []
    else seq(elementCount, i requires 0 <= i < elementCount => Entry(codes[i], Wrap8(counts[i]), symbols[i]))
  }

  /** The outcome of `vlc_tree_create`: the root on success; nothing on failure (the tree is freed). */
  function CreateSpec(table: seq<Entry>): (r: (Rc, Option<Tree>))
    ensures r.0 == Ok <==> r.1.Some?
  {
    var b := Build(Leaf(0), table);
    BuildOk(Leaf(0), table);
    if b.0 == Ok then (Ok, Some(b.1)) else (b.0, None)
  }

  /** `vlc_tree_create`: a zeroed root, then the entries added in order. */
  method TreeCreate(symbols: seq<byte>, codes: seq<nat>, counts: seq<byte>, elementCount: int)
    returns (rc: Rc, tree: Option<Tree>)
    requires elementCount <= |symbols| && elementCount <= |codes| && elementCount <= |counts|
    ensures (rc, tree) == CreateSpec(Table(symbols, codes, counts, elementCount))
  {
    ghost var table := Table(symbols, codes, counts, elementCount);
    var root := Leaf(0);
    var i := 0;
    while i < elementCount
      invariant 0 <= i <= |table|
      invariant root.Node? && Build(Leaf(0), table) == Build(root, table[i..])
    {
      assert table[i] == Entry(codes[i], Wrap8(counts[i]), symbols[i]);
      var a := AddNode(root, symbols[i], codes[i], Wrap8(counts[i]));
      if Failed(a.0) {
        BuildOk(Leaf(0), table);
        return a.0, None;
      }
      assert table[i..][1..] == table[i + 1..];
      root := a.1;
      i := i + 1;
    }
    assert table[i..] == [];
    return Ok, Some(root);
  }

  /** The index of the first entry whose bit count is not positive: the end of a terminated table. */
  function Terminator(prefixes: seq<Entry>): (k: Option<nat>)
    ensures k.Some? ==> k.value < |prefixes| && prefixes[k.value].count <= 0
    ensures k.Some? ==> forall i | 0 <= i < k.value :: prefixes[i].count > 0
    ensures k.None? ==> forall i | 0 <= i < |prefixes| :: prefixes[i].count > 0
  {
    if |prefixes| == 0 then None
    else if prefixes[0].count <= 0 then Some(0)
    else
      var k := Terminator(prefixes[1..]);
      if k.Some? then var j: nat := k.value + 1; Some(j) else None
  }

  /**
   * `vlc_tree_create2`: a count of 0 means "up to the terminating entry";
   * reading past the table (no terminator, or a count larger than the
   * table) is undefined.  A negative count builds the bare root.
   */
  function Create2Spec(prefixes: seq<Entry>, elementCount: int): (r: (Rc, Option<Tree>))
    ensures r.0 == Ok <==> r.1.Some?
    ensures elementCount < 0 ==> r == (Ok, Some(Leaf(0)))
  {
    if elementCount == 0 then
      var k := Terminator(prefixes);
      if k.None? then (Undefined, None) else CreateSpec(prefixes[..k.value])
    else if elementCount > |prefixes| then (Undefined, None)
    else CreateSpec(if elementCount < 0 then [] else prefixes[..elementCount])
  }

  method TreeCreate2(prefixes: seq<Entry>, elementCount: int) returns (rc: Rc, tree: Option<Tree>)
    ensures (rc, tree) == Create2Spec(prefixes, elementCount)
  {
    var n := elementCount;
    if n == 0 {
      while n < |prefixes| && prefixes[n].count > 0
        invariant 0 <= n <= |prefixes|
        invariant forall i | 0 <= i < n :: prefixes[i].count > 0
      {
        n := n + 1;
      }
      if n == |prefixes| {
        return Undefined, None;
      }
      TerminatorAt(prefixes, n);
    }
    if n > |prefixes| {
      return Undefined, None;
    }
    var symbols: seq<byte>, codes: seq<nat>, counts: seq<byte> := [], [], [];
    var i := 0;
    while i < n
      invariant 0 <= i <= (if n < 0 then 0 else n)
      invariant |symbols| == |codes| == |counts| == i
      invariant Table(symbols, codes, counts, i) == prefixes[..i]
    {
      TableAppend(symbols, codes, counts, prefixes[i]);
      assert prefixes[..i + 1] == prefixes[..i] + [prefixes[i]];
      symbols := symbols + [prefixes[i].symbol];
      codes := codes + [prefixes[i].bits];
      counts := counts + [prefixes[i].count % 256];
      i := i + 1;
    }
    rc, tree := TreeCreate(symbols, codes, counts, n);
  }

  /**
   * Copying an entry into the three tables, its `int8_t` bit count stored
   * as a `uint8_t`, gives the entry back when `vlc_tree_create` reads it.
   */
  lemma TableAppend(symbols: seq<byte>, codes: seq<nat>, counts: seq<byte>, e: Entry)
    requires |symbols| == |codes| == |counts|
    ensures var n := |symbols|;
      Table(symbols + [e.symbol], codes + [e.bits], counts + [e.count % 256], n + 1) == Table(symbols, codes, counts, n) + [e]
  {
    var n := |symbols|;
    var t := Table(symbols + [e.symbol], codes + [e.bits], counts + [e.count % 256], n + 1);
    var u := Table(symbols, codes, counts, n) + [e];
    forall j | 0 <= j < n + 1
      ensures t[j] == u[j]
    {
      if j == n {
        assert Wrap8(e.count % 256) == e.count;
      }
    }
  }

  lemma {:induction false} TerminatorAt(prefixes: seq<Entry>, n: nat)
    requires n < |prefixes| && prefixes[n].count <= 0
    requires forall i | 0 <= i < n :: prefixes[i].count > 0
    ensures Terminator(prefixes) == Some(n)
    decreases n
  {
    if n > 0 {
      TerminatorAt(prefixes[1..], n - 1);
    }
  }

  /** A terminated prefix-free table builds a tree in which every code leads to its symbol. */
  lemma Create2Finds(prefixes: seq<Entry>, n: nat)
    requires n < |prefixes| && prefixes[n].count <= 0
    requires PrefixFree(prefixes[..n])
    ensures var r := Create2Spec(prefixes, 0);
      && r.0 == Ok && r.1.Some?
      && forall i | 0 <= i < n :: Lookup(r.1.value, PathOf(prefixes[i])) == Leaf(prefixes[i].symbol)
  {
    var table := prefixes[..n];
    assert forall i | 0 <= i < n :: prefixes[i] == table[i];
    TerminatorAt(prefixes, n);
    BuildFinds(Leaf(0), table);
  }

  // ---------------------------------------------------------------------
  // vlc_decode_bitstream
  // ---------------------------------------------------------------------

  /**
   * The window a pass of `vlc_decode_bitstream` looks at: a peek of 32 bits,
   * or, when that needs more input, a peek of whatever `bitstream_get_size`
   * reports, if that is positive.  The first component is `bits_to_read`.
   */
  function Window(s: ReaderState): (w: (int, Read))
    requires Good(s)
    ensures Good(w.1.next)
  {
    var p := PeekSpec(s, 32);
    if p.rc == NeedMoreInput then
      var size := GetSizeSpec(p.next);
      if size > 0 then (size, PeekSpec(p.next, size)) else (size, p)
    else (32, p)
  }

  /**
   * A peek never moves the cursor or loses input, and a window that was
   * read holds the next bits of the stream, at most 32 of them.  A
   * window falls short of 32 bits only without a source.
   */
  lemma WindowFacts(s: ReaderState)
    requires Good(s)
    ensures var (n, p) := Window(s);
      && p.next.readBitIndex == s.readBitIndex
      && Pending(p.next) == Pending(s)
      && (p.rc == Ok ==>
            && 0 <= n <= 32
            && s.readBitIndex + n <= |p.next.data| * 8
            && p.value == Bits(Pending(s), s.readBitIndex, n)
            && p.value < Pow2(n))
      && (p.rc == Ok || Failed(p.rc))
      && (n != 32 ==> s.source.None?)
  {
    var p := PeekSpec(s, 32);
    PeekFacts(s, 32);
    if p.rc == NeedMoreInput {
      assert s.source.None? && p.next == s;
      var size := GetSizeSpec(s);
      if size > 0 {
        PeekFacts(s, size);
      }
    }
  }

  lemma PeekFacts(s: ReaderState, n: nat)
    requires Good(s) && n <= 32
    ensures var p := PeekSpec(s, n);
      && Pending(p.next) == Pending(s)
      && (p.rc == Ok || Failed(p.rc))
      && (p.rc == NeedMoreInput ==> s.source.None? && p.next == s && s.readBitIndex + n > |s.data| * 8)
      && (p.rc == Ok ==>
            && s.readBitIndex + n <= |p.next.data| * 8
            && p.value == Bits(Pending(s), s.readBitIndex, n)
            && p.value < Pow2(n))
  {
    PeekIsRead(s, n);
    ReadKeepsPending(s, n);
    RefillKeeps(s);
    if ReadSpec(s, n).rc == Ok {
      ReadFromPending(s, n);
      ReadValue(s, n);
    }
  }

  /** The outcome of one pass: the loop returns, or a symbol is decoded. */
  datatype Pass = Stop(rc: Rc, at: ReaderState) | Emit(symbol: byte, depth: nat, next: ReaderState)

  /**
   * One pass of the loop of `vlc_decode_bitstream`: END_OF_STREAM and
   * NEED_MORE_INPUT end decoding with OK, another failure is returned; the
   * leaf the window leads to gives the symbol, and as many bits as the
   * leaf is deep are discarded.
   */
  function DecodePass(s: ReaderState, tree: Tree): (p: Pass)
    requires Good(s)
    ensures p.Stop? ==> p.rc != EndOfStream && p.rc != NeedMoreInput && (p.rc == Ok || Failed(p.rc))
  {
    PassOn(Window(s), tree)
  }

  /** A pass, once the window has been peeked. */
  function PassOn(w: (int, Read), tree: Tree): Pass
    requires Good(w.1.next)
  {
    var (n, p) := w;
    if p.rc == EndOfStream || p.rc == NeedMoreInput then Stop(Ok, p.next)
    else if Failed(p.rc) then Stop(p.rc, p.next)
    else
      var f := FindLeaf(tree, p.value, n);
      if Failed(f.rc) then Stop(f.rc, p.next)
      else Emit(f.leaf.symbol, f.depth, DiscardSpec(p.next, f.depth).next)
  }

  /** A pass keeps the stream's invariants and input, and consumes exactly the code it decoded. */
  lemma PassFacts(s: ReaderState, tree: Tree)
    requires Good(s)
    ensures match DecodePass(s, tree)
      case Stop(_, at) => Good(at) && at.readBitIndex == s.readBitIndex && Pending(at) == Pending(s)
      case Emit(_, depth, next) =>
        && Good(next) && depth <= 32
        && next.readBitIndex == s.readBitIndex + depth
        && Pending(next) == Pending(s)
  {
    WindowFacts(s);
    PassOnFacts(Window(s), tree);
  }

  lemma PassOnFacts(w: (int, Read), tree: Tree)
    requires Good(w.1.next) && (w.1.rc == Ok || Failed(w.1.rc))
    requires w.1.rc == Ok ==> 0 <= w.0 <= 32 && w.1.next.readBitIndex + w.0 <= |w.1.next.data| * 8
    ensures match PassOn(w, tree)
      case Stop(_, at) => at == w.1.next
      case Emit(_, depth, next) =>
        && depth <= w.0 && w.1.rc == Ok
        && next == w.1.next.(readBitIndex := w.1.next.readBitIndex + depth)
  {
    var (n, p) := w;
    if p.rc == Ok {
      var f := FindLeaf(tree, p.value, n);
      if f.rc == Ok {
        DiscardBuffered(p.next, f.depth);
      }
    }
  }

  /** Discarding bits already buffered succeeds and only moves the cursor. */
  lemma DiscardBuffered(s: ReaderState, n: nat)
    requires Good(s) && s.readBitIndex + n <= |s.data| * 8
    ensures DiscardSpec(s, n) == Step(Ok, s.(readBitIndex := s.readBitIndex + n))
  {
    BufferedRead(s, n);
  }

  /** What `vlc_decode_bitstream` returns: the code, the symbols written to `dst`, the stream after. */
  datatype Decoded = Decoded(rc: Rc, symbols: seq<byte>, next: ReaderState)

  /**
   * `vlc_decode_bitstream(bs, tree, limit, dst, &len)`: passes while the
   * limit is positive (and counts down) or is -1 (no limit).
   */
  function DecodeSpec(s: ReaderState, tree: Tree, limit: int): (d: Decoded)
    requires Good(s)
    ensures Good(d.next) && Pending(d.next) == Pending(s) && s.readBitIndex <= d.next.readBitIndex
    ensures limit >= 0 ==> |d.symbols| <= limit
    decreases if limit > 0 then limit else 0, |Pending(s)| * 8 - s.readBitIndex, 1
  {
    if !(limit > 0 || limit == -1) then Decoded(Ok, [], s)
    else DecodeRest(s, tree, limit)
  }

  /**
   * A pass of the loop, then the rest of the loop.  With no limit, a leaf
   * at depth 0 (a root without branches) makes the loop repeat forever
   * without consuming a bit; that is `Undefined` here.
   */
  function DecodeRest(s: ReaderState, tree: Tree, limit: int): (d: Decoded)
    requires Good(s) && (limit > 0 || limit == -1)
    ensures Good(d.next) && Pending(d.next) == Pending(s) && s.readBitIndex <= d.next.readBitIndex
    ensures limit >= 0 ==> |d.symbols| <= limit
    decreases if limit > 0 then limit else 0, |Pending(s)| * 8 - s.readBitIndex, 0
  {
    PassFacts(s, tree);
    match DecodePass(s, tree)
    case Stop(rc, at) => Decoded(rc, [], at)
    case Emit(symbol, depth, next) =>
      if limit == -1 && depth == 0 then Decoded(Undefined, [], next)
      else Prepend(symbol, DecodeSpec(next, tree, NextLimit(limit)))
  }

  /** The limit for the passes after one that decoded a symbol. */
  function NextLimit(limit: int): int
  {
    if limit == -1 then -1 else limit - 1
  }

  function Prepend(symbol: byte, d: Decoded): Decoded
  {
    d.(symbols := [symbol] + d.symbols)
  }

  /** The peeks of one pass on the reader object: `bits_to_read`, `bits` and `rc`. */
  method PeekWindow(bs: BitReader) returns (n: int, bits: nat, rc: Rc)
    requires bs.Valid()
    modifies bs, bs.buffer
    ensures bs.Valid()
    ensures (n, Read(bits, rc, bs.St())) == Window(old(bs.St()))
  {
    ghost var s0 := bs.St();
    bs.ValidGood();
    PeekFacts(s0, 32);
    n := 32;
    bits, rc := bs.PeekBits(n);
    if rc == NeedMoreInput {
      n := bs.GetSize();
      if n > 0 {
        bits, rc := bs.PeekBits(n);
      }
    }
  }

  /** One pass on the reader object. */
  method DecodeOne(bs: BitReader, tree: Tree) returns (stop: bool, rc: Rc, symbol: byte, depth: nat)
    requires bs.Valid()
    modifies bs, bs.buffer
    ensures bs.Valid()
    ensures DecodePass(old(bs.St()), tree) == if stop then Stop(rc, bs.St()) else Emit(symbol, depth, bs.St())
  {
    ghost var s0 := bs.St();
    bs.ValidGood();
    WindowFacts(s0);
    var n, bits, r := PeekWindow(bs);
    ghost var w := (n, Read(bits, r, bs.St()));
    PassOnFacts(w, tree);
    if r == EndOfStream || r == NeedMoreInput {
      return true, Ok, 0, 0;
    }
    if Failed(r) {
      return true, r, 0, 0;
    }
    var f := FindLeaf(tree, bits, n);
    if Failed(f.rc) {
      return true, f.rc, 0, 0;
    }
    var _ := bs.DiscardBits(f.depth);
    return false, Ok, f.leaf.symbol, f.depth;
  }

  /** One unfolding of `DecodeSpec`, in the terms the loop below uses. */
  lemma DecodeStep(s: ReaderState, tree: Tree, limit: int)
    requires Good(s) && (limit > 0 || limit == -1)
    ensures var p := DecodePass(s, tree);
      && (p.Stop? ==> DecodeSpec(s, tree, limit) == Decoded(p.rc, [], p.at))
      && (p.Emit? ==> Good(p.next))
      && (p.Emit? && limit == -1 && p.depth == 0 ==> DecodeSpec(s, tree, limit) == Decoded(Undefined, [], p.next))
      && (p.Emit? && (limit != -1 || p.depth != 0) ==>
            DecodeSpec(s, tree, limit) == Prepend(p.symbol, DecodeSpec(p.next, tree, NextLimit(limit))))
  {
    PassFacts(s, tree);
    assert DecodeSpec(s, tree, limit) == DecodeRest(s, tree, limit);
  }

  /** The symbols already written, in front of those still to come. */
  function After(written: seq<byte>, d: Decoded): Decoded
  {
    d.(symbols := written + d.symbols)
  }

  lemma AfterNothing(d: Decoded)
    ensures After([], d) == d
  {
    assert [] + d.symbols == d.symbols;
  }

  lemma AfterPrepend(written: seq<byte>, symbol: byte, d: Decoded)
    ensures After(written, Prepend(symbol, d)) == After(written + [symbol], d)
  {
    assert written + ([symbol] + d.symbols) == (written + [symbol]) + d.symbols;
  }

  lemma AfterStop(written: seq<byte>, rc: Rc, at: ReaderState)
    ensures After(written, Decoded(rc, [], at)) == Decoded(rc, written, at)
  {
    assert written + [] == written;
  }

  /** `vlc_decode_bitstream` on the reader object. */
  method DecodeBitstream(bs: BitReader, tree: Tree, limit: int) returns (rc: Rc, symbols: seq<byte>)
    requires bs.Valid()
    modifies bs, bs.buffer
    ensures bs.Valid()
    ensures Decoded(rc, symbols, bs.St()) == DecodeSpec(old(bs.St()), tree, limit)
  {
    ghost var s0 := bs.St();
    bs.ValidGood();
    symbols := [];
    var left := limit;
    AfterNothing(DecodeSpec(s0, tree, limit));
    while left > 0 || left == -1
      invariant bs.Valid() && Good(bs.St())
      invariant DecodeSpec(s0, tree, limit) == After(symbols, DecodeSpec(bs.St(), tree, left))
      decreases if left > 0 then left else 0, |Pending(bs.St())| * 8 - bs.readBitIndex
    {
      ghost var s := bs.St();
      PassFacts(s, tree);
      DecodeStep(s, tree, left);
      var stop, r, symbol, depth := DecodeOne(bs, tree);
      bs.ValidGood();
      if stop {
        AfterStop(symbols, r, bs.St());
        return r, symbols;
      }
      if left == -1 && depth == 0 {
        AfterStop(symbols, Undefined, bs.St());
        return Undefined, symbols;
      }
      AfterPrepend(symbols, symbol, DecodeSpec(bs.St(), tree, NextLimit(left)));
      symbols := symbols + [symbol];
      left := NextLimit(left);
    }
    AfterStop(symbols, Ok, bs.St());
    return Ok, symbols;
  }

  // ---------------------------------------------------------------------
  // Decoding what was encoded
  // ---------------------------------------------------------------------

  /** The bits of a message: the codes of its entries, one after the other. */
  function Encode(msg: seq<Entry>): (bs: seq<bool>)
  {
    if |msg| == 0 then [] else PathOf(msg[0]) + Encode(msg[1..])
  }

  /** The symbols of a message. */
  function Symbols(msg: seq<Entry>): (r: seq<byte>)
    ensures |r| == |msg| && forall i | 0 <= i < |msg| :: r[i] == msg[i].symbol
  {
    seq(|msg|, i requires 0 <= i < |msg| => msg[i].symbol)
  }

  /**
   * Without a source the window is the next 32 bits when there are that
   * many, else all that is left; with nothing left the peek needs more
   * input.
   */
  lemma WindowMemory(s: ReaderState)
    requires Good(s) && s.source.None?
    ensures var avail := |s.data| * 8 - s.readBitIndex;
      && (avail >= 32 ==> Window(s) == (32, Read(Bits(s.data, s.readBitIndex, 32), Ok, s)))
      && (0 < avail < 32 ==> Window(s) == (avail, Read(Bits(s.data, s.readBitIndex, avail), Ok, s)))
      && (avail == 0 ==> Window(s).1.rc == NeedMoreInput && Window(s).1.next == s)
  {
    var avail := |s.data| * 8 - s.readBitIndex;
    if avail >= 32 {
      BufferedRead(s, 32);
    } else if avail > 0 {
      BufferedRead(s, avail);
    }
  }

  /**
   * Without a source, a pass over bits that begin with the code of a leaf
   * decodes that leaf's symbol and consumes exactly the code.
   */
  lemma DecodeCodeAt(s: ReaderState, tree: Tree, code: seq<bool>, symbol: byte)
    requires Good(s) && s.source.None?
    requires 1 <= |code| <= 32 && s.readBitIndex + |code| <= |s.data| * 8
    requires BitView(s.data)[s.readBitIndex..s.readBitIndex + |code|] == code
    requires Lookup(tree, code) == Leaf(symbol)
    ensures DecodePass(s, tree) == Emit(symbol, |code|, s.(readBitIndex := s.readBitIndex + |code|))
  {
    var rbi := s.readBitIndex;
    var avail := |s.data| * 8 - rbi;
    var n := if avail >= 32 then 32 else avail;
    var w := (n, Read(Bits(s.data, rbi, n), Ok, s));
    WindowMemory(s);
    assert Window(s) == w;
    FindAtCode(s.data, rbi, n, tree, code, symbol);
    PassOnEmit(w, tree);
  }

  /** The leaf search over a window that begins with a leaf's code stops at that leaf. */
  lemma FindAtCode(data: seq<byte>, start: nat, n: nat, tree: Tree, code: seq<bool>, symbol: byte)
    requires |code| <= n <= 32 && start + n <= |data| * 8
    requires BitView(data)[start..start + |code|] == code
    requires Lookup(tree, code) == Leaf(symbol)
    ensures FindLeaf(tree, Bits(data, start, n), n) == Found(Ok, Leaf(symbol), |code|)
  {
    var v := BitView(data);
    PrefixOfSlice(v, start, |code|, n);
    FindOnBits(tree, v[start..start + n], code, symbol);
  }

  lemma PrefixOfSlice(v: seq<bool>, a: nat, k: nat, n: nat)
    requires k <= n && a + n <= |v|
    ensures v[a..a + k] <= v[a..a + n]
  {
    assert v[a..a + n][..k] == v[a..a + k];
  }

  /** The same on the window as a sequence of bits. */
  lemma FindOnBits(tree: Tree, q: seq<bool>, code: seq<bool>, symbol: byte)
    requires code <= q && |q| <= 32
    requires Lookup(tree, code) == Leaf(symbol)
    ensures FindLeaf(tree, Val(q), |q|) == Found(Ok, Leaf(symbol), |code|)
  {
    ValBound(q);
    FindLeafIsWalk(tree, Val(q), |q|);
    DigitsVal(q);
    WalkToCode(tree, code, q);
  }

  /** A window that leads to a leaf makes the pass emit its symbol. */
  lemma PassOnEmit(w: (int, Read), tree: Tree)
    requires Good(w.1.next) && w.1.rc == Ok
    requires FindLeaf(tree, w.1.value, w.0).rc == Ok
    requires w.1.next.readBitIndex + FindLeaf(tree, w.1.value, w.0).depth <= |w.1.next.data| * 8
    ensures var f := FindLeaf(tree, w.1.value, w.0);
      PassOn(w, tree) == Emit(f.leaf.symbol, f.depth, w.1.next.(readBitIndex := w.1.next.readBitIndex + f.depth))
  {
    DiscardBuffered(w.1.next, FindLeaf(tree, w.1.value, w.0).depth);
  }

  /** Every entry of the message has a valid code that leads to its symbol in the tree. */
  predicate InTree(tree: Tree, msg: seq<Entry>)
  {
    forall i | 0 <= i < |msg| ::
      && ValidCode(msg[i].bits, msg[i].count)
      && Lookup(tree, PathOf(msg[i])) == Leaf(msg[i].symbol)
  }

  lemma InTreeTail(tree: Tree, msg: seq<Entry>)
    requires |msg| > 0 && InTree(tree, msg)
    ensures ValidCode(msg[0].bits, msg[0].count) && Lookup(tree, PathOf(msg[0])) == Leaf(msg[0].symbol)
    ensures InTree(tree, msg[1..])
  {
    assert forall i | 0 <= i < |msg| - 1 :: msg[1..][i] == msg[i + 1];
  }

  /**
   * Without a source, decoding bits that are exactly the codes of a message
   * yields the message's symbols and leaves the cursor at the end, with no
   * limit or a limit of at least the message's length.
   */
  lemma {:induction false} DecodeAll(s: ReaderState, tree: Tree, msg: seq<Entry>, limit: int)
    requires Good(s) && s.source.None?
    requires InTree(tree, msg)
    requires BitView(s.data)[s.readBitIndex..] == Encode(msg)
    requires limit == -1 || limit >= |msg|
    ensures DecodeSpec(s, tree, limit) == Decoded(Ok, Symbols(msg), s.(readBitIndex := |s.data| * 8))
    decreases |msg|
  {
    var rbi := s.readBitIndex;
    var v := BitView(s.data);
    if |msg| == 0 {
      DecodeAtEnd(s, tree, limit);
    } else {
      InTreeTail(tree, msg);
      var code := PathOf(msg[0]);
      SplitSuffix(v, rbi, code, Encode(msg[1..]));
      var next := s.(readBitIndex := rbi + |code|);
      DecodeAll(next, tree, msg[1..], NextLimit(limit));
      DecodeFirst(s, tree, code, msg[0].symbol, limit);
      PrependSymbols(msg, DecodeSpec(next, tree, NextLimit(limit)), s.(readBitIndex := |s.data| * 8));
    }
  }

  lemma PrependSymbols(msg: seq<Entry>, d: Decoded, end: ReaderState)
    requires |msg| > 0 && d == Decoded(Ok, Symbols(msg[1..]), end)
    ensures Prepend(msg[0].symbol, d) == Decoded(Ok, Symbols(msg), end)
  {
    assert Symbols(msg) == [msg[0].symbol] + Symbols(msg[1..]);
  }

  /** Without a source, decoding at the end of the data returns OK and nothing. */
  lemma DecodeAtEnd(s: ReaderState, tree: Tree, limit: int)
    requires Good(s) && s.source.None? && BitView(s.data)[s.readBitIndex..] == []
    ensures DecodeSpec(s, tree, limit) == Decoded(Ok, [], s.(readBitIndex := |s.data| * 8))
  {
    assert s.readBitIndex == |s.data| * 8;
    if limit > 0 || limit == -1 {
      DecodeStep(s, tree, limit);
      PassAtEnd(s, tree);
    }
  }

  /** Without a source, the first symbol decoded is that of the code at the cursor. */
  lemma DecodeFirst(s: ReaderState, tree: Tree, code: seq<bool>, symbol: byte, limit: int)
    requires Good(s) && s.source.None?
    requires 1 <= |code| <= 32 && s.readBitIndex + |code| <= |s.data| * 8
    requires BitView(s.data)[s.readBitIndex..s.readBitIndex + |code|] == code
    requires Lookup(tree, code) == Leaf(symbol)
    requires limit > 0 || limit == -1
    ensures Good(s.(readBitIndex := s.readBitIndex + |code|))
    ensures DecodeSpec(s, tree, limit)
         == Prepend(symbol, DecodeSpec(s.(readBitIndex := s.readBitIndex + |code|), tree, NextLimit(limit)))
  {
    DecodeCodeAt(s, tree, code, symbol);
    DecodeStep(s, tree, limit);
  }

  /** Without a source and with every bit read, a pass stops with OK. */
  lemma PassAtEnd(s: ReaderState, tree: Tree)
    requires Good(s) && s.source.None? && s.readBitIndex == |s.data| * 8
    ensures DecodePass(s, tree) == Stop(Ok, s)
  {
    WindowMemory(s);
  }

  lemma SplitSuffix(v: seq<bool>, a: nat, x: seq<bool>, y: seq<bool>)
    requires a <= |v| && v[a..] == x + y
    ensures a + |x| <= |v| && v[a..a + |x|] == x && v[a + |x|..] == y
  {
    assert v[a..][..|x|] == x && v[a..][|x|..] == y;
  }

  /**
   * The round trip: in a tree built from a prefix-free table, the codes of
   * any message over the table decode to the message's symbols.
   */
  lemma RoundTrip(table: seq<Entry>, msg: seq<Entry>, s: ReaderState)
    requires PrefixFree(table) && forall i | 0 <= i < |msg| :: msg[i] in table
    requires Good(s) && s.source.None?
    requires BitView(s.data)[s.readBitIndex..] == Encode(msg)
    ensures var b := Build(Leaf(0), table);
      b.0 == Ok && DecodeSpec(s, b.1, -1) == Decoded(Ok, Symbols(msg), s.(readBitIndex := |s.data| * 8))
  {
    BuildFinds(Leaf(0), table);
    DecodeAll(s, Build(Leaf(0), table).1, msg, -1);
  }

  // ---------------------------------------------------------------------
  // The four-symbol example
  // ---------------------------------------------------------------------

  /** The table 0 = 'A', 10 = 'B', 110 = 'C', 111 = 'D', ended by a zero count. */
  const AbcdTable: seq<Entry> := [Entry(0, 1, 65), Entry(2, 2, 66), Entry(6, 3, 67), Entry(7, 3, 68), Entry(0, 0, 0)]

  /** The table's four codes are prefix-free. */
  lemma AbcdPrefixFree()
    ensures PrefixFree(AbcdTable[..4])
  {
    AbcdPaths();
    var t := AbcdTable;
    assert AbcdTable[..4] == [t[0], t[1], t[2], t[3]];
    FourPrefixFree(t[0], t[1], t[2], t[3]);
  }

  lemma FourPrefixFree(a: Entry, b: Entry, c: Entry, d: Entry)
    requires ValidCode(a.bits, a.count) && ValidCode(b.bits, b.count)
    requires ValidCode(c.bits, c.count) && ValidCode(d.bits, d.count)
    requires PathOf(a) == [false] && PathOf(b) == [true, false]
    requires PathOf(c) == [true, true, false] && PathOf(d) == [true, true, true]
    ensures PrefixFree([a, b, c, d])
  {
    var t := [a, b, c, d];
    assert forall i | 0 <= i < 4 :: PathOf(t[i]) == AbcdCodes[i];
    AbcdCodesApart();
  }

  /** The four codes of the example, as paths. */
  const AbcdCodes: seq<seq<bool>> := [[false], [true, false], [true, true, false], [true, true, true]]

  /** Each of the four codes differs from each other one within both: none is a prefix of another. */
  lemma AbcdCodesApart()
    ensures forall i, j | 0 <= i < 4 && 0 <= j < 4 && i != j :: !(AbcdCodes[i] <= AbcdCodes[j])
  {
    forall i, j | 0 <= i < 4 && 0 <= j < 4 && i != j
      ensures !(AbcdCodes[i] <= AbcdCodes[j])
    {
      var k := if i < j then i else j;
      DifferAt(AbcdCodes[i], AbcdCodes[j], k);
    }
  }

  /** Two paths that differ at a position within both are not prefixes of each other. */
  lemma DifferAt(p: seq<bool>, q: seq<bool>, k: nat)
    requires k < |p| && k < |q| && p[k] != q[k]
    ensures !(p <= q)
  {
  }

  /** The table's codes, spelled out. */
  lemma AbcdPaths()
    ensures Pow2(1) == 2 && Pow2(2) == 4 && Pow2(3) == 8
    ensures PathOf(AbcdTable[0]) == [false]
    ensures PathOf(AbcdTable[1]) == [true, false]
    ensures PathOf(AbcdTable[2]) == [true, true, false]
    ensures PathOf(AbcdTable[3]) == [true, true, true]
  {
    assert Digits(0, 1) == [false];
    assert Digits(2, 2) == Digits(1, 1) + [false];
    assert Digits(3, 2) == Digits(1, 1) + [true];
    assert Digits(6, 3) == Digits(3, 2) + [false];
    assert Digits(7, 3) == Digits(3, 2) + [true];
  }

  /** The message "ABACAD" as table entries. */
  const AbcdMessage: seq<Entry> := [AbcdTable[0], AbcdTable[1], AbcdTable[0], AbcdTable[2], AbcdTable[0], AbcdTable[3]]

  /** The message's codes, concatenated: 0 10 0 110 0 111. */
  lemma AbcdEncoding()
    ensures Encode(AbcdMessage) == [false, true, false, false, true, true, false, false, true, true, true]
  {
    AbcdPaths();
    var t := AbcdTable;
    EncodeAbacad(t[0], t[1], t[2], t[3]);
  }

  lemma EncodeAbacad(a: Entry, b: Entry, c: Entry, d: Entry)
    requires PathOf(a) == [false] && PathOf(b) == [true, false]
    requires PathOf(c) == [true, true, false] && PathOf(d) == [true, true, true]
    ensures Encode([a, b, a, c, a, d]) == [false, true, false, false, true, true, false, false, true, true, true]
  {
    var m5: seq<Entry> := [d];
    assert Encode(m5) == [true, true, true] by { EncodeCons(d, [], []); }
    var m4 := [a] + m5;
    assert Encode(m4) == [false, true, true, true] by { EncodeCons(a, m5, [true, true, true]); }
    var m3 := [c] + m4;
    assert Encode(m3) == [true, true, false, false, true, true, true] by {
      EncodeCons(c, m4, [false, true, true, true]);
    }
    var m2 := [a] + m3;
    assert Encode(m2) == [false, true, true, false, false, true, true, true] by {
      EncodeCons(a, m3, [true, true, false, false, true, true, true]);
    }
    var m1 := [b] + m2;
    assert Encode(m1) == [true, false, false, true, true, false, false, true, true, true] by {
      EncodeCons(b, m2, [false, true, true, false, false, true, true, true]);
    }
    assert [a] + m1 == [a, b, a, c, a, d];
    EncodeCons(a, m1, [true, false, false, true, true, false, false, true, true, true]);
  }

  /** The bits of a message with one more entry in front. */
  lemma EncodeCons(e: Entry, tail: seq<Entry>, rest: seq<bool>)
    requires Encode(tail) == rest
    ensures Encode([e] + tail) == PathOf(e) + rest
  {
    assert ([e] + tail)[1..] == tail;
  }

  /** The bits from bit 21 on of the bytes 00 00 02 67. */
  lemma AbcdBits(data: seq<byte>)
    requires |data| == 4 && data[2] == 2 && data[3] == 0x67
    ensures BitView(data)[21..] == [false, true, false, false, true, true, false, false, true, true, true]
  {
    var v := BitView(data);
    ViewByte(data, 2);
    ViewByte(data, 3);
    AbcdByteBits();
    AbcdTail(v);
  }

  lemma AbcdTail(v: seq<bool>)
    requires |v| == 32
    requires v[16..24] == [false, false, false, false, false, false, true, false]
    requires v[24..32] == [false, true, true, false, false, true, true, true]
    ensures v[21..] == [false, true, false, false, true, true, false, false, true, true, true]
  {
    JoinTail(v, 16, 5);
  }

  lemma AbcdByteBits()
    ensures ByteBits(2) == [false, false, false, false, false, false, true, false]
    ensures ByteBits(0x67) == [false, true, true, false, false, true, true, true]
  {
  }

  /** The tail of a sequence from inside its third-to-last byte. */
  lemma JoinTail(v: seq<bool>, a: nat, k: nat)
    requires a + 16 == |v| && k <= 8
    ensures v[a + k..] == v[a..a + 8][k..] + v[a + 8..a + 16]
  {
  }

  /** Writing the four bytes one at a time and discarding 21 bits. */
  lemma AbcdStream()
    ensures var s0 := ReaderState([], 4, 0, None, 0);
      var w1 := Append(s0, [0]);
      var w2 := Append(w1.next, [0]);
      var w3 := Append(w2.next, [2]);
      var w4 := Append(w3.next, [0x67]);
      var d := DiscardSpec(w4.next, 21);
      && w1.rc == Ok && w2.rc == Ok && w3.rc == Ok && w4.rc == Ok
      && d == Step(Ok, ReaderState([0, 0, 2, 0x67], 4, 21, None, 0))
  {
    var w := ReaderState([0, 0, 2, 0x67], 4, 0, None, 0);
    assert [0] + [0] + [2] + [0x67] == w.data;
    assert Fetch(w, 21) == Step(Ok, w);
  }

  /**
   * The 32-bit word 0x00000267 written byte by byte into a four-byte buffer
   * with its first 21 bits discarded leaves the 11 bits 0 10 0 110 0 111,
   * which the tree built from the table decodes to "ABACAD", every bit used.
   */
  lemma AbcdDecodes()
    ensures var s0 := ReaderState([], 4, 0, None, 0);
      var w1 := Append(s0, [0]);
      var w2 := Append(w1.next, [0]);
      var w3 := Append(w2.next, [2]);
      var w4 := Append(w3.next, [0x67]);
      var d := DiscardSpec(w4.next, 21);
      var r := Create2Spec(AbcdTable, 0);
      && w1.rc == Ok && w2.rc == Ok && w3.rc == Ok && w4.rc == Ok && d.rc == Ok
      && r.0 == Ok && r.1.Some?
      && DecodeSpec(d.next, r.1.value, -1)
         == Decoded(Ok, [65, 66, 65, 67, 65, 68], d.next.(readBitIndex := 32))
  {
    AbcdStream();
    var s := ReaderState([0, 0, 2, 0x67], 4, 21, None, 0);
    AbcdDecodesFrom(s);
  }

  lemma AbcdDecodesFrom(s: ReaderState)
    requires s == ReaderState([0, 0, 2, 0x67], 4, 21, None, 0)
    ensures var r := Create2Spec(AbcdTable, 0);
      && r.0 == Ok && r.1.Some?
      && DecodeSpec(s, r.1.value, -1) == Decoded(Ok, [65, 66, 65, 67, 65, 68], s.(readBitIndex := 32))
  {
    AbcdPrefixFree();
    Create2Finds(AbcdTable, 4);
    AbcdTreeDecodes(s, Create2Spec(AbcdTable, 0).1.value);
  }

  /** Any tree holding the table's four codes decodes the example. */
  lemma AbcdTreeDecodes(s: ReaderState, tree: Tree)
    requires s == ReaderState([0, 0, 2, 0x67], 4, 21, None, 0)
    requires forall i | 0 <= i < 4 :: Lookup(tree, PathOf(AbcdTable[i])) == Leaf(AbcdTable[i].symbol)
    ensures DecodeSpec(s, tree, -1) == Decoded(Ok, [65, 66, 65, 67, 65, 68], s.(readBitIndex := 32))
  {
    AbcdMessageFits(tree);
    AbcdBits(s.data);
    AbcdEncoding();
    DecodeAll(s, tree, AbcdMessage, -1);
    AbcdSymbols();
  }

  lemma AbcdMessageFits(tree: Tree)
    requires forall i | 0 <= i < 4 :: Lookup(tree, PathOf(AbcdTable[i])) == Leaf(AbcdTable[i].symbol)
    ensures InTree(tree, AbcdMessage)
  {
    var m := AbcdMessage;
    AbcdPaths();
    forall i | 0 <= i < |m|
      ensures ValidCode(m[i].bits, m[i].count) && Lookup(tree, PathOf(m[i])) == Leaf(m[i].symbol)
    {
      if i == 1 {
        assert m[i] == AbcdTable[1];
      } else if i == 3 {
        assert m[i] == AbcdTable[2];
      } else if i == 5 {
        assert m[i] == AbcdTable[3];
      } else {
        assert m[i] == AbcdTable[0];
      }
    }
  }

  lemma AbcdSymbols()
    ensures Symbols(AbcdMessage) == [65, 66, 65, 67, 65, 68]
  {
    var r := Symbols(AbcdMessage);
    assert forall i | 0 <= i < 6 :: r[i] == AbcdMessage[i].symbol;
  }
}
