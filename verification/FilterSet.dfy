/**
 * The condition-tree builder of code/addons/db/filterset.cc, with Reader::Open's filter loop
 * (code/addons/db/reader.cc).
 *
 * `Step` is the builder on values: the frames of a zipper, outermost first, each holding the finished
 * children of one block that is still open. `FilterSet` below is the object with tree nodes, parent
 * pointers and a cursor, proved to keep the cursor on the rightmost spine and to refine `Step`.
 */
module FilterSets {

  datatype Attribute = Attribute(id: nat, value: int)

  datatype Comparison = Equal | Greater | Less | GreaterEqual | LessEqual

  datatype Token = Check(how: Comparison, attr: Attribute) | And | Or | Not | Block | Root

  datatype Tree = Tree(token: Token, children: seq<Tree>)

  /** The calls that build a filter; Begin and End are the brackets, the others append one token. */
  datatype Call = Add(token: Token) | Begin | End

  predicate IsCall(c: Call) {
    c.Add? ==> c.token.Check? || c.token.And? || c.token.Or? || c.token.Not?
  }

  // ----- the builder on values -----

  datatype Builder = Builder(frames: seq<seq<Tree>>, binds: seq<Attribute>)

  const FRESH: Builder := Builder([[]], [])

  datatype Result = Aborted | Built(b: Builder)

  /** What EndBlock asserts about the children of the block it closes. */
  predicate Closable(block: seq<Tree>) {
    && block != []
    && !block[0].token.And? && !block[0].token.Or?
    && var last := block[|block| - 1].token; !last.And? && !last.Or? && !last.Not?
  }

  function Step(b: Builder, c: Call): Result
    requires b.frames != []
  {
    var top := |b.frames| - 1;
    match c
    case Add(token) =>
      Built(Builder(b.frames[top := b.frames[top] + [Tree(token, [])]],
                    b.binds + if token.Check? then [token.attr] else []))
    case Begin => Built(b.(frames := b.frames + [[]]))
    case End =>
      if top == 0 || !Closable(b.frames[top]) then Aborted
      else Built(b.(frames := b.frames[..top][top - 1 := b.frames[top - 1] + [Tree(Block, b.frames[top])]]))
  }

  /** The builder after a sequence of calls; `Aborted` once an assertion has failed. */
  function Build(calls: seq<Call>): (r: Result)
    ensures r.Built? ==> r.b.frames != []
  {
    if calls == [] then Built(FRESH)
    else
      var before := Build(calls[..|calls| - 1]);
      if before.Aborted? then Aborted else Step(before.b, calls[|calls| - 1])
  }

  // ----- reading the tree back -----

  /** The calls that write down finished trees, left to right. */
  function Written(trees: seq<Tree>): seq<Call> {
    if trees == [] then []
    else
      var t := trees[|trees| - 1];
      Written(trees[..|trees| - 1]) + if t.token.Block? then [Begin] + Written(t.children) + [End] else [Add(t.token)]
  }

  /** The calls that write down the frames: an open bracket before every one but the first. */
  function WrittenFrames(frames: seq<seq<Tree>>): seq<Call>
    requires frames != []
  {
    var top := |frames| - 1;
    if top == 0 then Written(frames[0])
    else WrittenFrames(frames[..top]) + [Begin] + Written(frames[top])
  }

  /** The attributes of the comparisons among some calls. */
  function Attributes(calls: seq<Call>): seq<Attribute> {
    if calls == [] then []
    else
      var c := calls[|calls| - 1];
      Attributes(calls[..|calls| - 1]) + if c.Add? && c.token.Check? then [c.token.attr] else []
  }

  /** Every block in these trees is one that EndBlock accepts. */
  predicate AllClosable(trees: seq<Tree>) {
    forall t :: t in trees ==> (t.token.Block? ==> Closable(t.children)) && AllClosable(t.children)
  }

  lemma WrittenSnoc(trees: seq<Tree>, t: Tree)
    ensures Written(trees + [t]) == Written(trees) + if t.token.Block? then [Begin] + Written(t.children) + [End] else [Add(t.token)]
  {
    assert (trees + [t])[..|trees|] == trees;
  }

  lemma WrittenTop(frames: seq<seq<Tree>>, top: seq<Tree>)
    requires frames != []
    ensures var changed := frames[|frames| - 1 := top];
      WrittenFrames(changed) == (if |frames| == 1 then [] else WrittenFrames(frames[..|frames| - 1]) + [Begin]) + Written(top)
  {
    assert frames[|frames| - 1 := top][..|frames| - 1] == frames[..|frames| - 1];
  }

  lemma WrittenOpen(frames: seq<seq<Tree>>, block: seq<Tree>)
    requires frames != []
    ensures WrittenFrames(frames + [block]) == WrittenFrames(frames) + [Begin] + Written(block)
  {
    assert (frames + [block])[..|frames|] == frames;
  }

  lemma WrittenNothing()
    ensures Written([]) == []
  {
  }

  /** Appending a finished tree to the innermost frame. */
  lemma WrittenAppend(frames: seq<seq<Tree>>, t: Tree)
    requires frames != []
    ensures var top := |frames| - 1;
      WrittenFrames(frames[top := frames[top] + [t]])
      == WrittenFrames(frames) + if t.token.Block? then [Begin] + Written(t.children) + [End] else [Add(t.token)]
  {
    hide Written, WrittenFrames;
    var top := |frames| - 1;
    WrittenTop(frames, frames[top]);
    assert frames[top := frames[top]] == frames;
    WrittenTop(frames, frames[top] + [t]);
    WrittenSnoc(frames[top], t);
  }

  /** One accepted call is appended to what the tree and the cursor say. */
  lemma StepIsWritten(b: Builder, c: Call)
    requires b.frames != [] && IsCall(c) && Step(b, c).Built?
    ensures WrittenFrames(Step(b, c).b.frames) == WrittenFrames(b.frames) + [c]
  {
    hide Written, WrittenFrames;
    var top := |b.frames| - 1;
    match c
    case Add(token) =>
      WrittenAppend(b.frames, Tree(token, []));
    case Begin =>
      WrittenOpen(b.frames, []);
      WrittenNothing();
    case End =>
      var outer := b.frames[..top];
      WrittenAppend(outer, Tree(Block, b.frames[top]));
      WrittenOpen(outer, b.frames[top]);
      assert outer + [b.frames[top]] == b.frames;
  }

  /**
   * For every accepted sequence of calls: writing down the tree and the cursor gives the calls back, the
   * bind list is the left-to-right list of compared attributes, and all closed blocks are well formed.
   */
  lemma {:induction false} BuildIsFaithful(calls: seq<Call>)
    requires Build(calls).Built? && forall i :: 0 <= i < |calls| ==> IsCall(calls[i])
    ensures WrittenFrames(Build(calls).b.frames) == calls
    ensures Build(calls).b.binds == Attributes(calls)
    ensures forall i :: 0 <= i < |Build(calls).b.frames| ==> AllClosable(Build(calls).b.frames[i])
  {
    hide WrittenFrames, Step;
    if calls != [] {
      var n := |calls| - 1;
      BuildIsFaithful(calls[..n]);
      StepIsWritten(Build(calls[..n]).b, calls[n]);
      StepIsClosable(Build(calls[..n]).b, calls[n]);
      assert calls[..n] + [calls[n]] == calls;
    } else {
      FreshIsWritten();
    }
  }

  lemma FreshIsWritten()
    ensures WrittenFrames(FRESH.frames) == []
  {
  }

  lemma StepIsClosable(b: Builder, c: Call)
    requires b.frames != [] && IsCall(c) && Step(b, c).Built?
    requires forall i :: 0 <= i < |b.frames| ==> AllClosable(b.frames[i])
    ensures var r := Step(b, c).b;
      && (forall i :: 0 <= i < |r.frames| ==> AllClosable(r.frames[i]))
      && r.binds == b.binds + if c.Add? && c.token.Check? then [c.token.attr] else []
  {
    var top := |b.frames| - 1;
    match c
    case Add(token) => ClosableSnoc(b.frames[top], Tree(token, []));
    case Begin =>
    case End => ClosableSnoc(b.frames[top - 1], Tree(Block, b.frames[top]));
  }

  lemma ClosableSnoc(trees: seq<Tree>, t: Tree)
    requires AllClosable(trees) && (t.token.Block? ==> Closable(t.children)) && AllClosable(t.children)
    ensures AllClosable(trees + [t])
  {
  }

  /** So the builder is injective: the tree and the cursor determine the calls made. */
  lemma BuildIsInjective(calls: seq<Call>, others: seq<Call>)
    requires Build(calls).Built? && forall i :: 0 <= i < |calls| ==> IsCall(calls[i])
    requires Build(others).Built? && forall i :: 0 <= i < |others| ==> IsCall(others[i])
    ensures Build(calls).b.frames == Build(others).b.frames <==> calls == others
  {
    BuildIsFaithful(calls);
    BuildIsFaithful(others);
  }

  // ----- acceptance, in terms of the calls alone -----

  /** The positions of the brackets still open, outermost first; none if one closed too many. */
  function OpenBrackets(calls: seq<Call>): seq<nat> {
    if calls == [] then []
    else
      var n := |calls| - 1;
      var open := OpenBrackets(calls[..n]);
      if calls[n].Begin? then open + [n]
      else if calls[n].End? && open != [] then open[..|open| - 1]
      else open
  }

  predicate IsConnective(c: Call) {
    c.Add? && (c.token.And? || c.token.Or?)
  }

  /** Where frame `i` begins and ends among the calls. */
  function FrameStart(open: seq<nat>, i: nat): nat
    requires i <= |open|
  {
    if i == 0 then 0 else open[i - 1] + 1
  }

  function FrameEnd(open: seq<nat>, i: nat, calls: seq<Call>): nat
    requires i <= |open|
  {
    if i == |open| then |calls| else open[i]
  }

  /** A frame is empty exactly if its stretch of calls is; else their first tokens are connectives alike. */
  ghost predicate FirstAgrees(calls: seq<Call>, start: nat, end: nat, block: seq<Tree>) {
    && start <= end <= |calls|
    && (block == [] <==> start == end)
    && (start < end ==> (IsConnective(calls[start]) <==> block[0].token.And? || block[0].token.Or?))
  }

  /** The last token of the innermost frame and the last call are connectives, or Not, alike. */
  ghost predicate LastAgrees(c: Call, t: Token) {
    && (IsConnective(c) <==> t.And? || t.Or?)
    && (c == Add(Not) <==> t.Not?)
  }

  ghost predicate FramesAgree(calls: seq<Call>, b: Builder) {
    var open := OpenBrackets(calls);
    && |b.frames| == |open| + 1
    && (forall i :: 0 <= i < |open| ==> open[i] < |calls| && calls[open[i]].Begin?)
    && (forall i :: 0 <= i <= |open| ==> FirstAgrees(calls, FrameStart(open, i), FrameEnd(open, i, calls), b.frames[i]))
    && (b.frames[|open|] != [] ==> LastAgrees(calls[|calls| - 1], b.frames[|open|][|b.frames[|open|]| - 1].token))
  }

  lemma StepAgrees(calls: seq<Call>, b: Builder, c: Call)
    requires b.frames != [] && FramesAgree(calls, b) && Step(b, c).Built?
    ensures FramesAgree(calls + [c], Step(b, c).b)
  {
    var all, after := calls + [c], Step(b, c).b;
    var was, open := OpenBrackets(calls), OpenBrackets(all);
    assert all[..|calls|] == calls;
    forall i | 0 <= i <= |open|
      ensures FirstAgrees(all, FrameStart(open, i), FrameEnd(open, i, all), after.frames[i])
    {
      if i <= |was| {
        assert FirstAgrees(calls, FrameStart(was, i), FrameEnd(was, i, calls), b.frames[i]);
      }
    }
  }

  lemma {:induction false} BuildAgrees(calls: seq<Call>)
    requires Build(calls).Built?
    ensures FramesAgree(calls, Build(calls).b)
  {
    if calls != [] {
      var n := |calls| - 1;
      BuildAgrees(calls[..n]);
      StepAgrees(calls[..n], Build(calls[..n]).b, calls[n]);
      assert calls[..n] + [calls[n]] == calls;
    }
  }

  /**
   * Which call an accepted sequence may be followed by: any but EndBlock always, and EndBlock exactly if
   * some bracket is open, something follows it, and the calls right after it and last are no dangling connectives.
   */
  lemma AcceptedNext(calls: seq<Call>, c: Call)
    requires Build(calls).Built?
    ensures var open := OpenBrackets(calls);
      Build(calls + [c]).Built? <==>
        c.End? ==>
          && open != []
          && var start := open[|open| - 1] + 1;
             && start < |calls|
             && !IsConnective(calls[start])
             && !IsConnective(calls[|calls| - 1]) && calls[|calls| - 1] != Add(Not)
  {
    BuildAgrees(calls);
    assert (calls + [c])[..|calls|] == calls;
    var open, b := OpenBrackets(calls), Build(calls).b;
    assert FirstAgrees(calls, FrameStart(open, |open|), FrameEnd(open, |open|, calls), b.frames[|open|]);
  }

  // ----- Reader::Open -----

  /** The AND chain over some attributes: n checks, n - 1 connectives. */
  function AndChain(attrs: seq<Attribute>): seq<Tree> {
    if attrs == [] then []
    else
      var n := |attrs| - 1;
      AndChain(attrs[..n]) + (if n == 0 then [] else [Tree(And, [])]) + [Tree(Check(Equal, attrs[n]), [])]
  }

  /** Checks at the even places, connectives at the odd ones. */
  lemma {:induction false} AndChainShape(attrs: seq<Attribute>)
    ensures var chain := AndChain(attrs);
      && |chain| == (if attrs == [] then 0 else 2 * |attrs| - 1)
      && (forall i :: 0 <= i < |attrs| ==> chain[2 * i] == Tree(Check(Equal, attrs[i]), []))
      && (forall i :: 0 <= i < |attrs| - 1 ==> chain[2 * i + 1] == Tree(And, []))
  {
    if attrs != [] {
      AndChainShape(attrs[..|attrs| - 1]);
    }
  }

  lemma NoChain()
    ensures AndChain([]) == []
  {
  }

  lemma ChainGrows(attrs: seq<Attribute>)
    requires attrs != []
    ensures var n := |attrs| - 1;
      AndChain(attrs) == AndChain(attrs[..n]) + (if n == 0 then [] else [Tree(And, [])]) + [Tree(Check(Equal, attrs[n]), [])]
  {
  }

  lemma OneFrameGrows(b: Builder, token: Token)
    requires |b.frames| == 1
    ensures Step(b, Add(token))
         == Built(Builder([b.frames[0] + [Tree(token, [])]], b.binds + if token.Check? then [token.attr] else []))
  {
  }

  // ----- the filter object -----

  /** A node of the token tree. Once `closed`, nothing more goes below it and `tree` is its value. */
  class Node {
    const value: Token
    const parent: Node?
    var children: seq<Node>
    ghost const depth: nat
    ghost var closed: bool
    ghost var tree: Tree

    constructor (parent: Node?, value: Token, ghost depth: nat, ghost closed: bool)
      ensures this.parent == parent && this.value == value && children == []
      ensures this.depth == depth && this.closed == closed && tree == Tree(value, []) && Linked()
    {
      this.parent := parent;
      this.value := value;
      this.depth := depth;
      this.closed := closed;
      children := [];
      tree := Tree(value, []);
    }

    method Append(child: Node)
      requires Linked() && !closed && child.parent == this
      modifies this`children
      ensures children == old(children) + [child] && Linked()
    {
      children := children + [child];
    }

    ghost predicate ChildrenIn(nodes: set<Node>)
      reads this
    {
      forall k :: 0 <= k < |children| ==> children[k] in nodes
    }

    /** The children point back here; below a closed node everything is closed, and `tree` collects it. */
    ghost predicate Linked()
      reads this, children`tree, children`closed
    {
      && (forall k :: 0 <= k < |children| ==> children[k].parent == this)
      && (closed ==> tree.token == value && AreTrees(tree.children, children))
    }
  }

  ghost predicate AreTrees(trees: seq<Tree>, ns: seq<Node>)
    reads ns`tree, ns`closed
  {
    |trees| == |ns| && forall k :: 0 <= k < |ns| ==> ns[k].closed && trees[k] == ns[k].tree
  }

  /** A frame holds the trees of a spine node's children, except the last one while it is open itself. */
  ghost predicate Holds(frame: seq<Tree>, ns: seq<Node>, open: bool)
    reads ns`tree, ns`closed
  {
    if open then ns != [] && AreTrees(frame, ns[..|ns| - 1]) else AreTrees(frame, ns)
  }

  lemma HoldsClosed(frame: seq<Tree>, ns: seq<Node>, t: Tree)
    requires Holds(frame, ns, true) && ns[|ns| - 1].closed && ns[|ns| - 1].tree == t
    ensures Holds(frame + [t], ns, false)
  {
  }

  lemma HoldsAppend(frame: seq<Tree>, ns: seq<Node>, n: Node)
    requires Holds(frame, ns, false)
    ensures Holds(frame, ns + [n], true)
  {
    assert (ns + [n])[..|ns|] == ns;
  }

  lemma HoldsNothing()
    ensures Holds([], [], false)
  {
  }

  class FilterSet {
    const root: Node
    var curToken: Node
    var bindAttrs: seq<Attribute>
    var isDirty: bool
    /** All nodes, the path from the root to the cursor, and the builder this object stands for. */
    ghost var nodes: set<Node>
    ghost var spine: seq<Node>
    ghost var builder: Builder

    /** The cursor is on the rightmost spine: each open node is the last child of the one above it. */
    ghost predicate OnSpine(cursor: Node)
      reads this`nodes, this`spine, spine
    {
      && spine != [] && spine[0] == root && spine[|spine| - 1] == cursor
      && root.parent == null && root.value == Root
      && (forall i :: 0 <= i < |spine| ==> spine[i] in nodes && spine[i].depth == i && !spine[i].closed)
      && (forall i :: 0 < i < |spine| ==> IsLastChild(spine[i], spine[i - 1]))
    }

    static ghost predicate IsLastChild(n: Node, above: Node)
      reads above
    {
      && n.value == Block && n.parent == above
      && above.children != [] && above.children[|above.children| - 1] == n
    }

    ghost predicate Valid()
      reads this, nodes, spine
    {
      && OnSpine(curToken)
      && (forall n :: n in nodes ==> n.ChildrenIn(nodes))
      && (forall n :: n in nodes ==> n.Linked())
      && |builder.frames| == |spine|
      && (forall i :: 0 <= i < |spine| ==> Holds(builder.frames[i], spine[i].children, i < |spine| - 1))
      && builder.binds == bindAttrs
    }

    constructor ()
      ensures Valid() && builder == FRESH && !isDirty && fresh(nodes)
    {
      var r := new Node(null, Root, 0, false);
      root := r;
      curToken := r;
      bindAttrs := [];
      isDirty := false;
      nodes := {r};
      spine := [r];
      builder := FRESH;
    }

    method Clear()
      requires Valid()
      modifies this, root
      ensures Valid() && builder == FRESH && isDirty && curToken == root
    {
      root.children := [];
      bindAttrs := [];
      curToken := root;
      isDirty := true;
      nodes := {root};
      spine := [root];
      builder := FRESH;
    }

    /** `n` has been appended below `cursor`, and this object does not know it yet. */
    ghost predicate Appended(n: Node, cursor: Node)
      reads this`nodes, this`spine, this`builder, nodes, spine, n, cursor
    {
      && OnSpine(cursor) && n !in nodes && n.parent == cursor && n.depth == |spine| && n.children == []
      && |builder.frames| == |spine|
      && cursor.children != [] && cursor.children[|cursor.children| - 1] == n
      && (forall m :: m in nodes + {n} ==> m.ChildrenIn(nodes + {n}))
      && (forall m :: m in nodes + {n} ==> m.Linked())
      && (forall i :: 0 <= i < |spine| ==>
           spine[i].ChildrenIn(nodes + {n}) && Holds(builder.frames[i], spine[i].children, true))
    }

    /** SimpleTree::Node::Append on the cursor. */
    method Append(token: Token, ghost closed: bool) returns (n: Node)
      requires Valid()
      modifies curToken`children
      ensures curToken.children == old(curToken.children) + [n]
      ensures Appended(n, curToken) && fresh(n) && n.value == token && n.closed == closed && n.tree == Tree(token, [])
    {
      hide Holds, AreTrees, Node.Linked;
      n := new Node(curToken, token, |spine|, closed);
      HoldsAppend(builder.frames[|spine| - 1], curToken.children, n);
      curToken.Append(n);
      assert forall i :: 0 <= i < |spine| - 1 ==> spine[i] != curToken;
    }

    /** A token below the cursor is finished at once. */
    ghost method RecordToken(n: Node)
      requires Appended(n, curToken) && n.closed && n.tree == Tree(n.value, []) && IsCall(Add(n.value))
      requires bindAttrs == builder.binds + if n.value.Check? then [n.value.attr] else []
      modifies this`nodes, this`builder
      ensures Valid() && nodes == old(nodes) + {n} && Built(builder) == Step(old(builder), Add(n.value))
    {
      hide AreTrees, Holds, Node.Linked, Node.ChildrenIn;
      var top, was := |spine| - 1, builder.frames;
      HoldsClosed(was[top], curToken.children, n.tree);
      nodes := nodes + {n};
      builder := Step(builder, Add(n.value)).b;
      assert builder.frames == was[top := was[top] + [n.tree]];
    }

    /** A block below the cursor is the new cursor. */
    ghost method RecordBlock(n: Node)
      requires spine != [] && Appended(n, spine[|spine| - 1]) && !n.closed && n.value == Block
      requires curToken == n && bindAttrs == builder.binds
      modifies this`nodes, this`spine, this`builder
      ensures Valid() && nodes == old(nodes) + {n} && Built(builder) == Step(old(builder), Begin)
    {
      hide AreTrees, Holds, Node.Linked, Node.ChildrenIn;
      HoldsNothing();
      nodes := nodes + {n};
      spine := spine + [n];
      builder := Step(builder, Begin).b;
    }

    /** AddEqualCheck and its siblings, AddAnd, AddOr, AddNot: append one token below the cursor. */
    method AddToken(token: Token)
      requires Valid() && IsCall(Add(token))
      modifies this, curToken
      ensures Valid() && isDirty && fresh(nodes - old(nodes))
      ensures Built(builder) == Step(old(builder), Add(token)) && curToken == old(curToken)
      ensures bindAttrs == old(bindAttrs) + if token.Check? then [token.attr] else []
      ensures |curToken.children| == |old(curToken.children)| + 1 && old(curToken.children) <= curToken.children
      ensures var n := curToken.children[|curToken.children| - 1];
        fresh(n) && n.value == token && n.parent == curToken && n.children == []
    {
      hide Step, AreTrees, Holds, Node.Linked, Node.ChildrenIn;
      var n := Append(token, true);
      if token.Check? {
        bindAttrs := bindAttrs + [token.attr];
      }
      isDirty := true;
      RecordToken(n);
    }

    method BeginBlock()
      requires Valid()
      modifies this, curToken
      ensures Valid() && isDirty && fresh(nodes - old(nodes))
      ensures Built(builder) == Step(old(builder), Begin)
      ensures fresh(curToken) && curToken.value == Block && curToken.parent == old(curToken) && curToken.children == []
      ensures old(curToken).children == old(curToken.children) + [curToken] && bindAttrs == old(bindAttrs)
    {
      hide Step, AreTrees, Holds, Node.Linked, Node.ChildrenIn;
      var n := Append(Block, false);
      curToken := curToken.children[|curToken.children| - 1];
      isDirty := true;
      RecordBlock(n);
    }

    /** False, with nothing changed, where one of the source's assertions fails. */
    method EndBlock() returns (ok: bool)
      requires Valid()
      modifies this, curToken
      ensures Valid() && nodes == old(nodes)
      ensures ok <==> Step(old(builder), End).Built?
      ensures if ok then Built(builder) == Step(old(builder), End) && isDirty
              else builder == old(builder) && isDirty == old(isDirty)
      ensures curToken == if ok then old(curToken.parent) else old(curToken)
    {
      hide AreTrees, Holds, Node.Linked, Node.ChildrenIn;
      FramesTellValues();
      if curToken.parent == null || curToken.value == Root || curToken.children == [] {
        return false;
      }
      var front, back := curToken.children[0].value, curToken.children[|curToken.children| - 1].value;
      if front.And? || front.Or? || back.And? || back.Or? || back.Not? {
        return false;
      }
      isDirty := true;
      ghost var n := curToken;
      curToken := curToken.parent;
      RecordEnd(n);
      ok := true;
    }

    /** The cursor's frame shows the values of its children. */
    lemma FramesTellValues()
      requires Valid()
      ensures var top := |spine| - 1;
        && |builder.frames[top]| == |curToken.children|
        && (forall k :: 0 <= k < |curToken.children| ==> builder.frames[top][k].token == curToken.children[k].value)
        && (top > 0 <==> curToken.parent != null) && (top > 0 ==> curToken.value == Block)
    {
      var top := |spine| - 1;
      assert top > 0 ==> IsLastChild(curToken, spine[top - 1]);
      assert Holds(builder.frames[top], spine[top].children, false);
      forall k | 0 <= k < |curToken.children| ensures builder.frames[top][k].token == curToken.children[k].value {
        assert curToken.children[k].Linked();
      }
    }

    /** The node the cursor has just left becomes a finished tree. */
    ghost method RecordEnd(n: Node)
      requires |spine| > 1 && OnSpine(n) && curToken == n.parent
      requires forall n :: n in nodes ==> n.ChildrenIn(nodes) && n.Linked()
      requires |builder.frames| == |spine| && Step(builder, End).Built? && builder.binds == bindAttrs
      requires forall i :: 0 <= i < |spine| ==> Holds(builder.frames[i], spine[i].children, i < |spine| - 1)
      modifies this`spine, this`builder, n`tree, n`closed
      ensures Valid() && Built(builder) == Step(old(builder), End)
    {
      hide Node.ChildrenIn, AreTrees;
      var top := |spine| - 1;
      assert IsLastChild(n, spine[top - 1]);
      CloseNode(n, builder.frames[top]);
      HoldsClosed(builder.frames[top - 1], spine[top - 1].children, n.tree);
      spine := spine[..top];
      builder := Step(builder, End).b;
    }

    ghost method CloseNode(n: Node, frame: seq<Tree>)
      requires OnSpine(n) && n.value == Block && Holds(frame, n.children, false)
      requires |builder.frames| == |spine|
      requires forall m :: m in nodes ==> m.ChildrenIn(nodes) && m.Linked()
      requires forall i :: 0 <= i < |spine| - 1 ==> Holds(builder.frames[i], spine[i].children, true)
      modifies n`tree, n`closed
      ensures n.tree == Tree(Block, frame) && n.closed
      ensures forall m :: m in nodes ==> m.ChildrenIn(nodes) && m.Linked()
      ensures forall i :: 0 <= i < |spine| - 1 ==> Holds(builder.frames[i], spine[i].children, true) && !spine[i].closed
    {
      assert forall i :: 0 <= i < |spine| - 1 ==> spine[i] != n;
      n.tree := Tree(Block, frame);
      n.closed := true;
    }

    /** The loop of Reader::Open that fills a filter from the reader's filter attributes. */
    method AddAndChain(filterAttrs: seq<Attribute>)
      requires Valid() && builder == FRESH
      modifies this, curToken
      ensures Valid() && fresh(nodes - old(nodes))
      ensures builder == Builder([AndChain(filterAttrs)], filterAttrs)
    {
      hide Valid, Step, AndChain;
      var num := |filterAttrs|;
      ghost var cursor := curToken;
      NoChain();
      for i := 0 to num
        invariant Valid() && fresh(nodes - old(nodes)) && curToken == cursor
        invariant builder.binds == filterAttrs[..i] && |builder.frames| == 1
        invariant builder.frames[0] == AndChain(filterAttrs[..i]) + if 0 < i < num then [Tree(And, [])] else []
      {
        assert filterAttrs[..i + 1][..i] == filterAttrs[..i];
        ChainGrows(filterAttrs[..i + 1]);
        OneFrameGrows(builder, Check(Equal, filterAttrs[i]));
        AddToken(Check(Equal, filterAttrs[i]));
        if i < num - 1 {
          OneFrameGrows(builder, And);
          AddToken(And);
        }
      }
      assert filterAttrs[..num] == filterAttrs && builder.frames == [builder.frames[0]];
      assert builder.frames[0] == AndChain(filterAttrs);
    }
  }
}