/** Collecting the text below a field with an explicit stack over an accessibility graph
  * that may share nodes or have cycles, and what that collects on trees.
  */
module DescendantWalk {
  import opened Options
  import opened AccessibleText

  const MAX_NODES: nat := 512
  const MAX_CHARACTERS: nat := 262_144

  datatype Ref = Ref(bus: string, path: string)

  /** A text interface reports a character count beside its text. */
  datatype TextInterface = Missing | Failing | Text(count: int, value: string)

  datatype Node = Unreachable | Node(children: seq<Ref>, text: TextInterface)

  type Graph = Ref -> Node

  datatype Snapshot = Snapshot(text: string, nodeTexts: map<string, string>, hasEmbeddedObject: bool)

  /** A node's text, or None where the walk gives up. */
  function TextOf(node: Node): Option<string> {
    if node.Unreachable? then None
    else match node.text
      case Missing => Some("")
      case Failing => None
      case Text(count, value) => if 0 <= count <= MAX_CHARACTERS && |value| == count then Some(value) else None
  }

  predicate Readable(g: Graph, ref: Ref) {
    TextOf(g(ref)).Some?
  }

  /** What a node adds to the joined text: only leaves do. */
  function LeafText(g: Graph, ref: Ref): string {
    if Readable(g, ref) && g(ref).children == [] then TextOf(g(ref)).value else ""
  }

  // ----- what the visited nodes, in order, amount to

  function LeafTexts(g: Graph, visited: seq<Ref>): (texts: seq<string>)
    ensures |texts| == |visited|
  {
    seq(|visited|, i requires 0 <= i < |visited| => LeafText(g, visited[i]))
  }

  function Total(texts: seq<string>): nat {
    if texts == [] then 0 else |texts[0]| + Total(texts[1..])
  }

  function Concat(texts: seq<string>): string {
    if texts == [] then [] else Normalize(texts[0]) + Concat(texts[1..])
  }

  function Characters(g: Graph, visited: seq<Ref>): nat {
    Total(LeafTexts(g, visited))
  }

  function Joined(g: Graph, visited: seq<Ref>): string {
    Concat(LeafTexts(g, visited))
  }

  function ByPath(g: Graph, visited: seq<Ref>): map<string, string> {
    if visited == [] then map[]
    else
      var last := visited[|visited| - 1];
      var text := if Readable(g, last) then Normalize(TextOf(g(last)).value) else [];
      ByPath(g, visited[..|visited| - 1])[last.path := text]
  }

  ghost predicate HasEmbedded(g: Graph, visited: seq<Ref>) {
    exists ref :: ref in visited && Readable(g, ref) && EMBEDDED_OBJECT in TextOf(g(ref)).value
  }

  /** The nodes visited from a stack, top first, or None once a limit or an error stops it. */
  function Walk(g: Graph, stack: seq<Ref>, visited: nat, characters: nat): Option<seq<Ref>>
    requires visited <= MAX_NODES
    decreases MAX_NODES - visited
  {
    if stack == [] then Some([])
    else if visited == MAX_NODES || !Readable(g, stack[0]) then None
    else
      var more := characters + |LeafText(g, stack[0])|;
      if more > MAX_CHARACTERS then None
      else
        var rest := Walk(g, g(stack[0]).children + stack[1..], visited + 1, more);
        if rest.None? then None else Some([stack[0]] + rest.value)
  }

  function Reversed<T>(s: seq<T>): seq<T> {
    if s == [] then [] else [s[|s| - 1]] + Reversed(s[..|s| - 1])
  }

  lemma {:induction false} ReversedAppends<T>(a: seq<T>, b: seq<T>)
    ensures Reversed(a + b) == Reversed(b) + Reversed(a)
  {
    if b == [] {
      assert a + b == a;
    } else {
      ReversedAppends(a, b[..|b| - 1]);
      assert (a + b)[..|a + b| - 1] == a + b[..|b| - 1];
    }
  }

  lemma {:induction false} ReversedTwice<T>(s: seq<T>)
    ensures Reversed(Reversed(s)) == s && |Reversed(s)| == |s|
  {
    if s != [] {
      var n := |s| - 1;
      ReversedTwice(s[..n]);
      ReversedAppends([s[n]], Reversed(s[..n]));
      assert [s[n]][..0] == [];
    }
  }

  function After(seen: seq<Ref>, rest: Option<seq<Ref>>): Option<seq<Ref>> {
    if rest.None? then None else Some(seen + rest.value)
  }

  /** The walk with its stack, top last. `pops` counts stack pops. */
  method DescendantSnapshot(g: Graph, root: Ref) returns (outcome: Option<Snapshot>, pops: nat)
    ensures pops <= MAX_NODES + 1
    ensures outcome.Some? <==> g(root).Node? && Walk(g, g(root).children, 0, 0).Some?
    ensures outcome.Some? ==>
      var visited := Walk(g, g(root).children, 0, 0).value;
      && pops == |visited|
      && outcome.value.text == Joined(g, visited)
      && outcome.value.nodeTexts == ByPath(g, visited)
      && outcome.value.hasEmbeddedObject == HasEmbedded(g, visited)
  {
    pops := 0;
    if g(root).Unreachable? {
      return None, pops;
    }
    var children := g(root).children;
    var stack := Reversed(children);
    ReversedTwice(children);
    var text := "";
    var nodeTexts: map<string, string> := map[];
    var characters := 0;
    var hasEmbeddedObject := false;
    ghost var seen: seq<Ref> := [];
    NothingCollected(g, children);
    while stack != []
      invariant pops == |seen| <= MAX_NODES
      invariant characters == Characters(g, seen) <= MAX_CHARACTERS
      invariant Collected(g, seen, text, nodeTexts, hasEmbeddedObject)
      invariant OnTrack(g, children, seen, stack, pops, characters)
      decreases MAX_NODES - pops
    {
      var ref := stack[|stack| - 1];
      ghost var before, above, popped, counted := seen, stack, pops, characters;
      stack := stack[..|stack| - 1];
      pops := pops + 1;
      if pops > MAX_NODES {
        GivesUp(g, children, before, above, popped, counted);
        return None, pops;
      }
      var readable;
      readable, text, nodeTexts, characters, hasEmbeddedObject :=
        VisitNode(g, ref, text, nodeTexts, characters, hasEmbeddedObject, seen);
      if !readable {
        GivesUp(g, children, before, above, popped, counted);
        return None, pops;
      }
      stack := stack + Reversed(g(ref).children);
      seen := seen + [ref];
      KeepsOnTrack(g, children, before, above, popped, counted, seen, stack, characters);
    }
    WalkIsOver(g, children, seen, pops, characters);
    return Some(Snapshot(text, nodeTexts, hasEmbeddedObject)), pops;
  }

  /** The whole walk is what was seen followed by the walk from the stack. */
  ghost predicate OnTrack(g: Graph, children: seq<Ref>, seen: seq<Ref>, stack: seq<Ref>, pops: nat, characters: nat)
    requires pops <= MAX_NODES
  {
    Walk(g, children, 0, 0) == After(seen, Walk(g, Reversed(stack), pops, characters))
  }

  lemma KeepsOnTrack(g: Graph, children: seq<Ref>, seen: seq<Ref>, stack: seq<Ref>, pops: nat, characters: nat,
                     seen': seq<Ref>, stack': seq<Ref>, characters': nat)
    requires stack != [] && pops < MAX_NODES && characters == Characters(g, seen)
    requires OnTrack(g, children, seen, stack, pops, characters)
    requires var ref := stack[|stack| - 1];
      && Readable(g, ref) && characters' == characters + |LeafText(g, ref)| <= MAX_CHARACTERS
      && seen' == seen + [ref] && stack' == stack[..|stack| - 1] + Reversed(g(ref).children)
    ensures OnTrack(g, children, seen', stack', pops + 1, characters')
  {
    VisitTop(g, stack, pops, characters, seen);
  }

  lemma WalkIsOver(g: Graph, children: seq<Ref>, seen: seq<Ref>, pops: nat, characters: nat)
    requires pops <= MAX_NODES && OnTrack(g, children, seen, [], pops, characters)
    ensures Walk(g, children, 0, 0) == Some(seen)
  {
    assert seen + [] == seen;
  }

  lemma GivesUp(g: Graph, children: seq<Ref>, seen: seq<Ref>, stack: seq<Ref>, pops: nat, characters: nat)
    requires stack != [] && pops <= MAX_NODES && characters == Characters(g, seen)
    requires OnTrack(g, children, seen, stack, pops, characters)
    requires var ref := stack[|stack| - 1];
      pops == MAX_NODES || !Readable(g, ref) || characters + |LeafText(g, ref)| > MAX_CHARACTERS
    ensures Walk(g, children, 0, 0).None?
  {
    VisitTop(g, stack, pops, characters, seen);
  }

  /** Add one node's text to what was gathered; false where the walk gives up. */
  method VisitNode(g: Graph, ref: Ref, text: string, nodeTexts: map<string, string>, characters: nat, embedded: bool,
                   ghost seen: seq<Ref>)
    returns (readable: bool, text': string, nodeTexts': map<string, string>, characters': nat, embedded': bool)
    requires Collected(g, seen, text, nodeTexts, embedded) && characters == Characters(g, seen) <= MAX_CHARACTERS
    ensures readable <==> Readable(g, ref) && characters + |LeafText(g, ref)| <= MAX_CHARACTERS
    ensures readable ==>
      && characters' == characters + |LeafText(g, ref)| == Characters(g, seen + [ref])
      && Collected(g, seen + [ref], text', nodeTexts', embedded')
  {
    text', nodeTexts', characters', embedded' := text, nodeTexts, characters, embedded;
    readable := false;
    var node := g(ref);
    var nodeText := TextOf(node);
    if nodeText.None? {
      return;
    }
    embedded' := embedded || EMBEDDED_OBJECT in nodeText.value;
    nodeTexts' := nodeTexts[ref.path := Normalize(nodeText.value)];
    CollectOne(g, seen, ref, text, nodeTexts, embedded);
    CharactersAppend(g, seen, [ref]);
    CharactersOfOne(g, ref);
    if node.children == [] && nodeText.value != "" {
      characters' := characters + |nodeText.value|;
      if characters' > MAX_CHARACTERS {
        return;
      }
      text' := text + Normalize(nodeText.value);
    } else {
      assert LeafText(g, ref) == "";
    }
    readable := true;
  }

  /** What the walk has gathered from the nodes seen so far. */
  ghost predicate Collected(g: Graph, seen: seq<Ref>, text: string, nodeTexts: map<string, string>, embedded: bool) {
    text == Joined(g, seen) && nodeTexts == ByPath(g, seen) && embedded == HasEmbedded(g, seen)
  }

  lemma NothingCollected(g: Graph, children: seq<Ref>)
    ensures Characters(g, []) == 0 && Collected(g, [], "", map[], false)
    ensures After([], Walk(g, children, 0, 0)) == Walk(g, children, 0, 0)
  {
    assert LeafTexts(g, []) == [];
    var walked := Walk(g, children, 0, 0);
    if walked.Some? {
      assert [] + walked.value == walked.value;
    }
  }

  lemma CollectOne(g: Graph, seen: seq<Ref>, ref: Ref, text: string, nodeTexts: map<string, string>, embedded: bool)
    requires Collected(g, seen, text, nodeTexts, embedded) && Readable(g, ref)
    ensures var value := TextOf(g(ref)).value;
      Collected(g, seen + [ref], text + Normalize(LeafText(g, ref)), nodeTexts[ref.path := Normalize(value)],
                embedded || EMBEDDED_OBJECT in value)
    ensures text + Normalize("") == text
  {
    CharactersAppend(g, seen, [ref]);
    CharactersOfOne(g, ref);
    assert (seen + [ref])[..|seen|] == seen;
    assert ref in seen + [ref];
  }

  /** One turn of the loop is one turn of the walk. */
  lemma VisitTop(g: Graph, stack: seq<Ref>, pops: nat, characters: nat, seen: seq<Ref>)
    requires stack != [] && pops <= MAX_NODES && characters == Characters(g, seen)
    ensures var ref := stack[|stack| - 1];
      var more := characters + |LeafText(g, ref)|;
      && more == Characters(g, seen + [ref])
      && After(seen, Walk(g, Reversed(stack), pops, characters)) ==
         if pops == MAX_NODES || !Readable(g, ref) || more > MAX_CHARACTERS then None
         else After(seen + [ref], Walk(g, Reversed(stack[..|stack| - 1] + Reversed(g(ref).children)), pops + 1, more))
  {
    var ref := stack[|stack| - 1];
    CharactersAppend(g, seen, [ref]);
    CharactersOfOne(g, ref);
    if g(ref).Node? && pops < MAX_NODES {
      PushedInOrder(stack, g(ref).children);
      AfterOne(g, seen, stack, pops, characters);
    } else {
      PushedInOrder(stack, []);
    }
  }

  lemma AfterOne(g: Graph, seen: seq<Ref>, stack: seq<Ref>, pops: nat, characters: nat)
    requires stack != [] && pops < MAX_NODES && g(stack[|stack| - 1]).Node?
    requires Reversed(stack)[0] == stack[|stack| - 1]
    ensures var ref := stack[|stack| - 1];
      var more := characters + |LeafText(g, ref)|;
      Readable(g, ref) && more <= MAX_CHARACTERS ==>
      After(seen, Walk(g, Reversed(stack), pops, characters)) ==
      After(seen + [ref], Walk(g, g(ref).children + Reversed(stack)[1..], pops + 1, more))
  {
    var ref := stack[|stack| - 1];
    var rest := Walk(g, g(ref).children + Reversed(stack)[1..], pops + 1, characters + |LeafText(g, ref)|);
    if rest.Some? {
      assert seen + ([ref] + rest.value) == (seen + [ref]) + rest.value;
    }
  }

  /** Popping a node and pushing its children in reverse leaves them first, in order. */
  lemma PushedInOrder(stack: seq<Ref>, children: seq<Ref>)
    requires stack != []
    ensures Reversed(stack)[0] == stack[|stack| - 1]
    ensures Reversed(stack[..|stack| - 1] + Reversed(children)) == children + Reversed(stack)[1..]
  {
    ReversedAppends(stack[..|stack| - 1], Reversed(children));
    ReversedTwice(children);
  }

  // ----- trees

  datatype Tree = Tree(ref: Ref, children: seq<Tree>)

  /** The graph below `refs` unfolds to these finite trees. */
  ghost predicate Unfolds(g: Graph, refs: seq<Ref>, forest: seq<Tree>)
    decreases forest
  {
    if forest == [] then refs == []
    else
      && refs != [] && forest[0].ref == refs[0] && g(refs[0]).Node?
      && Unfolds(g, g(refs[0]).children, forest[0].children)
      && Unfolds(g, refs[1..], forest[1..])
  }

  function Preorder(forest: seq<Tree>): seq<Ref>
    decreases forest
  {
    if forest == [] then [] else [forest[0].ref] + Preorder(forest[0].children) + Preorder(forest[1..])
  }

  /** The placeholder-free text of the leaves, in document order, by recursion on the trees. */
  function DocumentText(g: Graph, forest: seq<Tree>): string
    decreases forest
  {
    if forest == [] then []
    else
      (if forest[0].children == [] then Normalize(LeafText(g, forest[0].ref))
       else DocumentText(g, forest[0].children)) +
      DocumentText(g, forest[1..])
  }

  lemma {:induction false} PreorderAppends(a: seq<Tree>, b: seq<Tree>)
    ensures Preorder(a + b) == Preorder(a) + Preorder(b)
    decreases |a|
  {
    if a == [] {
      assert a + b == b;
    } else {
      assert (a + b)[1..] == a[1..] + b;
      PreorderAppends(a[1..], b);
    }
  }

  lemma {:induction false} UnfoldsAppends(g: Graph, r: seq<Ref>, a: seq<Tree>, s: seq<Ref>, b: seq<Tree>)
    requires Unfolds(g, r, a) && Unfolds(g, s, b)
    ensures Unfolds(g, r + s, a + b)
    decreases |a|
  {
    if a == [] {
      assert a + b == b && r + s == s;
    } else {
      assert (a + b)[1..] == a[1..] + b && (r + s)[1..] == r[1..] + s;
      UnfoldsAppends(g, r[1..], a[1..], s, b);
    }
  }

  lemma {:induction false} UnfoldsSplits(g: Graph, r: seq<Ref>, s: seq<Ref>, forest: seq<Tree>)
    requires Unfolds(g, r + s, forest)
    ensures |r| <= |forest| && Unfolds(g, r, forest[..|r|]) && Unfolds(g, s, forest[|r|..])
    decreases |r|
  {
    if r == [] {
      assert r + s == s && forest[0..] == forest;
    } else {
      assert (r + s)[1..] == r[1..] + s;
      UnfoldsSplits(g, r[1..], s, forest[1..]);
      assert forest[..|r|][1..] == forest[1..][..|r| - 1];
      assert forest[|r|..] == forest[1..][|r| - 1..];
    }
  }

  lemma {:induction false} TextsAppend(a: seq<string>, b: seq<string>)
    ensures Total(a + b) == Total(a) + Total(b)
    ensures Concat(a + b) == Concat(a) + Concat(b)
  {
    if a == [] {
      assert a + b == b;
    } else {
      assert (a + b)[0] == a[0] && (a + b)[1..] == a[1..] + b;
      TextsAppend(a[1..], b);
    }
  }

  lemma CharactersAppend(g: Graph, a: seq<Ref>, b: seq<Ref>)
    ensures Characters(g, a + b) == Characters(g, a) + Characters(g, b)
    ensures Joined(g, a + b) == Joined(g, a) + Joined(g, b)
  {
    assert LeafTexts(g, a + b) == LeafTexts(g, a) + LeafTexts(g, b);
    TextsAppend(LeafTexts(g, a), LeafTexts(g, b));
  }

  lemma CharactersOfOne(g: Graph, ref: Ref)
    ensures Characters(g, [ref]) == |LeafText(g, ref)|
    ensures Joined(g, [ref]) == Normalize(LeafText(g, ref))
  {
    var texts := LeafTexts(g, [ref]);
    assert texts == [LeafText(g, ref)];
    assert texts[1..] == [];
    assert Total(texts[1..]) == 0 && Concat(texts[1..]) == [];
  }

  ghost predicate AllReadable(g: Graph, visited: seq<Ref>) {
    forall ref :: ref in visited ==> Readable(g, ref)
  }

  /** What the stack holds once the first tree's root is popped. */
  lemma PopFirst(g: Graph, refs: seq<Ref>, forest: seq<Tree>)
    requires Unfolds(g, refs, forest) && forest != []
    ensures refs != [] && g(refs[0]).Node?
    ensures Unfolds(g, g(refs[0]).children + refs[1..], forest[0].children + forest[1..])
    ensures Preorder(forest) == [refs[0]] + Preorder(forest[0].children + forest[1..])
    ensures Characters(g, Preorder(forest)) ==
      |LeafText(g, refs[0])| + Characters(g, Preorder(forest[0].children + forest[1..]))
  {
    var next := forest[0].children + forest[1..];
    PreorderAppends(forest[0].children, forest[1..]);
    assert Preorder(forest) == [refs[0]] + Preorder(next);
    UnfoldsAppends(g, g(refs[0]).children, forest[0].children, refs[1..], forest[1..]);
    CharactersAppend(g, [refs[0]], Preorder(next));
    CharactersOfOne(g, refs[0]);
  }

  /** The trees of a node's children, and those beside it, make the node's own tree. */
  lemma PushFirst(g: Graph, refs: seq<Ref>, next: seq<Tree>) returns (forest: seq<Tree>)
    requires refs != [] && g(refs[0]).Node? && Unfolds(g, g(refs[0]).children + refs[1..], next)
    ensures Unfolds(g, refs, forest) && forest != [] && forest[0].children + forest[1..] == next
  {
    var n := |g(refs[0]).children|;
    UnfoldsSplits(g, g(refs[0]).children, refs[1..], next);
    forest := [Tree(refs[0], next[..n])] + next[n..];
    assert forest[1..] == next[n..];
  }

  lemma WalkPops(g: Graph, refs: seq<Ref>, visited: nat, characters: nat)
    requires refs != [] && visited < MAX_NODES && Readable(g, refs[0])
    requires characters + |LeafText(g, refs[0])| <= MAX_CHARACTERS
    ensures Walk(g, refs, visited, characters) ==
      After([refs[0]], Walk(g, g(refs[0]).children + refs[1..], visited + 1, characters + |LeafText(g, refs[0])|))
  {
  }

  /** On trees within the limits the walk visits the preorder. */
  lemma {:induction false} TreesAreWalked(g: Graph, refs: seq<Ref>, forest: seq<Tree>, visited: nat, characters: nat)
    requires Unfolds(g, refs, forest) && AllReadable(g, Preorder(forest))
    requires visited + |Preorder(forest)| <= MAX_NODES
    requires characters + Characters(g, Preorder(forest)) <= MAX_CHARACTERS
    ensures Walk(g, refs, visited, characters) == Some(Preorder(forest))
    decreases |Preorder(forest)|
  {
    if forest != [] {
      var next := forest[0].children + forest[1..];
      PopFirst(g, refs, forest);
      assert refs[0] in Preorder(forest);
      TreesAreWalked(g, g(refs[0]).children + refs[1..], next, visited + 1, characters + |LeafText(g, refs[0])|);
      WalkPops(g, refs, visited, characters);
    }
  }

  /** A walk that ends without giving up has walked finite trees within the limits. */
  lemma {:induction false} WalkedAreTrees(g: Graph, refs: seq<Ref>, visited: nat, characters: nat)
    returns (forest: seq<Tree>)
    requires visited <= MAX_NODES && characters <= MAX_CHARACTERS && Walk(g, refs, visited, characters).Some?
    ensures Unfolds(g, refs, forest) && AllReadable(g, Preorder(forest))
    ensures visited + |Preorder(forest)| <= MAX_NODES
    ensures characters + Characters(g, Preorder(forest)) <= MAX_CHARACTERS
    decreases MAX_NODES - visited
  {
    if refs == [] {
      forest := [];
    } else {
      var next := WalkedAreTrees(g, g(refs[0]).children + refs[1..], visited + 1, characters + |LeafText(g, refs[0])|);
      forest := PushFirst(g, refs, next);
      PopFirst(g, refs, forest);
    }
  }

  ghost predicate WithinLimits(g: Graph, forest: seq<Tree>) {
    && AllReadable(g, Preorder(forest))
    && |Preorder(forest)| <= MAX_NODES
    && Characters(g, Preorder(forest)) <= MAX_CHARACTERS
  }

  /** The walk succeeds exactly on graphs that unfold to readable trees within the limits;
    * a cycle below the root always makes it give up.
    */
  lemma WalkSucceedsExactlyOnTrees(g: Graph, refs: seq<Ref>)
    ensures Walk(g, refs, 0, 0).Some? <==> exists forest :: Unfolds(g, refs, forest) && WithinLimits(g, forest)
    ensures forall forest :: Unfolds(g, refs, forest) && WithinLimits(g, forest) ==>
      Walk(g, refs, 0, 0) == Some(Preorder(forest))
  {
    if Walk(g, refs, 0, 0).Some? {
      var forest := WalkedAreTrees(g, refs, 0, 0);
      assert WithinLimits(g, forest);
    }
    forall forest | Unfolds(g, refs, forest) && WithinLimits(g, forest)
      ensures Walk(g, refs, 0, 0) == Some(Preorder(forest))
    {
      TreesAreWalked(g, refs, forest, 0, 0);
    }
  }

  /** The text joined along the walk is the recursive document text of the trees. */
  lemma {:induction false} JoinedIsDocumentText(g: Graph, refs: seq<Ref>, forest: seq<Tree>)
    requires Unfolds(g, refs, forest)
    ensures Joined(g, Preorder(forest)) == DocumentText(g, forest)
    decreases forest
  {
    if forest != [] {
      var first, below, beside := forest[0].ref, forest[0].children, forest[1..];
      JoinedIsDocumentText(g, g(first).children, below);
      JoinedIsDocumentText(g, refs[1..], beside);
      CharactersAppend(g, [first] + Preorder(below), Preorder(beside));
      CharactersAppend(g, [first], Preorder(below));
      CharactersOfOne(g, first);
      if below != [] {
        NormalizeRemovesExactlyPlaceholders("");
        assert LeafText(g, first) == "";
      }
    }
  }

  /** Exactly these nodes let the walk go on: reachable ones without a text interface, or with
    * one whose text is as long as it says and within the limit; only leaves add their text.
    */
  lemma ReadableExactlyWhen(g: Graph, ref: Ref)
    ensures Readable(g, ref) <==>
      && g(ref).Node? && !g(ref).text.Failing?
      && (g(ref).text.Text? ==> g(ref).text.count == |g(ref).text.value| <= MAX_CHARACTERS)
    ensures Readable(g, ref) ==>
      LeafText(g, ref) == if g(ref).children == [] && g(ref).text.Text? then g(ref).text.value else ""
  {
  }

  lemma {:induction false} BlankTexts(texts: seq<string>)
    requires forall i :: 0 <= i < |texts| ==> texts[i] == ""
    ensures Total(texts) == 0 && Concat(texts) == ""
  {
    if texts != [] {
      BlankTexts(texts[1..]);
    }
  }

  /** A tree of nodes without text interfaces is walked to its end, and its text is empty. */
  lemma TextlessTreeIsEmpty(g: Graph, refs: seq<Ref>, forest: seq<Tree>)
    requires Unfolds(g, refs, forest) && |Preorder(forest)| <= MAX_NODES
    requires forall ref :: ref in Preorder(forest) ==> g(ref).Node? && g(ref).text.Missing?
    ensures Walk(g, refs, 0, 0) == Some(Preorder(forest)) && Joined(g, Preorder(forest)) == ""
  {
    BlankTexts(LeafTexts(g, Preorder(forest)));
    TreesAreWalked(g, refs, forest, 0, 0);
  }

  /** Any finite unfolding of the graph below the root fixes what a snapshot holds. */
  lemma SnapshotIsDocumentText(g: Graph, refs: seq<Ref>, forest: seq<Tree>)
    requires Unfolds(g, refs, forest)
    ensures Walk(g, refs, 0, 0).Some? <==> WithinLimits(g, forest)
    ensures WithinLimits(g, forest) ==>
      Walk(g, refs, 0, 0) == Some(Preorder(forest)) && Joined(g, Preorder(forest)) == DocumentText(g, forest)
  {
    JoinedIsDocumentText(g, refs, forest);
    WalkSucceedsExactlyOnTrees(g, refs);
    if Walk(g, refs, 0, 0).Some? {
      var walked := WalkedAreTrees(g, refs, 0, 0);
      UnfoldingIsUnique(g, refs, forest, walked);
    }
  }

  lemma {:induction false} UnfoldingIsUnique(g: Graph, refs: seq<Ref>, a: seq<Tree>, b: seq<Tree>)
    requires Unfolds(g, refs, a) && Unfolds(g, refs, b)
    ensures a == b
    decreases a
  {
    if a != [] {
      assert b != [];
      UnfoldingIsUnique(g, g(refs[0]).children, a[0].children, b[0].children);
      UnfoldingIsUnique(g, refs[1..], a[1..], b[1..]);
      assert a == [a[0]] + a[1..] && b == [b[0]] + b[1..];
    }
  }
}
