/** The macro front end's module tree: one output file per package, merged into nested modules by
    walking a mutable cursor down the dotted segments, then emitted as nested `mod` blocks. */
module ModTree {
  import opened Bytes

  // ---- dotted names ----

  /** `stem.split('.')`. */
  function Segments(stem: string): (segs: seq<string>)
    ensures segs != []
  {
    if stem == "" then [""]
    else
      var rest := Segments(stem[1..]);
      if stem[0] == '.' then [""] + rest else [[stem[0]] + rest[0]] + rest[1..]
  }

  function Dotted(segs: seq<string>): string {
    if segs == [] then ""
    else if |segs| == 1 then segs[0]
    else segs[0] + "." + Dotted(segs[1..])
  }

  /** Splitting loses nothing, so different packages have different paths. */
  lemma {:induction false} DottedOfSegments(stem: string)
    ensures Dotted(Segments(stem)) == stem
  {
    if stem != "" {
      var rest := Segments(stem[1..]);
      DottedOfSegments(stem[1..]);
      if stem[0] == '.' {
        assert Segments(stem)[1..] == rest;
        assert Dotted(Segments(stem)) == "" + "." + stem[1..];
      } else {
        var segs := [[stem[0]] + rest[0]] + rest[1..];
        assert segs[1..] == rest[1..];
        assert Dotted(segs) == [stem[0]] + Dotted(rest);
      }
    }
  }

  predicate DotFree(segs: seq<string>) {
    forall i :: 0 <= i < |segs| ==> '.' !in segs[i]
  }

  /** Splitting cuts at every dot: the pieces hold none, and no other dot-free pieces make the stem. */
  lemma {:induction false} SegmentsExactly(stem: string, segs: seq<string>)
    ensures Segments(stem) == segs <==> segs != [] && DotFree(segs) && Dotted(segs) == stem
  {
    SegmentsDotFree(stem);
    DottedOfSegments(stem);
    if segs != [] && DotFree(segs) && Dotted(segs) == stem {
      SegmentsOfDotted(segs);
    }
  }

  lemma {:induction false} SegmentsDotFree(stem: string)
    ensures DotFree(Segments(stem))
  {
    if stem != "" { SegmentsDotFree(stem[1..]); }
  }

  lemma {:induction false} SegmentsOfDotted(segs: seq<string>)
    requires segs != [] && DotFree(segs)
    ensures Segments(Dotted(segs)) == segs
    decreases segs
  {
    if |segs| == 1 {
      SegmentsOfPiece(segs[0], "");
      assert segs == [segs[0]];
    } else {
      SegmentsOfPiece(segs[0], Dotted(segs[1..]));
      SegmentsOfDotted(segs[1..]);
    }
  }

  lemma {:induction false} SegmentsOfPiece(piece: string, rest: string)
    requires '.' !in piece
    ensures Segments(piece) == [piece] && Segments(piece + "." + rest) == [piece] + Segments(rest)
  {
    var s := piece + "." + rest;
    if piece == "" {
      assert s[1..] == rest;
    } else {
      assert s[1..] == piece[1..] + "." + rest;
      assert piece == [piece[0]] + piece[1..];
      SegmentsOfPiece(piece[1..], rest);
    }
  }

  // ---- the flat map ----

  /** One generated file: the stem of its path, if the path has one in UTF-8, and its contents. */
  datatype File = File(stem: Option<string>, content: string)

  /** The contents that the first `n` files put at the paths of their packages. */
  function Flat(files: seq<File>, n: nat): map<seq<string>, string>
    requires n <= |files|
  {
    if n == 0 then map[]
    else if files[n - 1].stem.None? then Flat(files, n - 1)
    else Flat(files, n - 1)[Segments(files[n - 1].stem.value) := files[n - 1].content]
  }

  /** The first `n` files all have names, and each name is new. */
  predicate Distinct(files: seq<File>, n: nat)
    requires n <= |files|
  {
    n == 0 || (Distinct(files, n - 1) && files[n - 1].stem.Some? && NewName(files, n - 1))
  }

  predicate NewName(files: seq<File>, i: nat)
    requires i < |files|
  {
    forall j :: 0 <= j < i ==> files[j].stem != files[i].stem
  }

  /** In other words: every file has a name, and no two share one. */
  lemma {:induction false} DistinctPairs(files: seq<File>, n: nat)
    requires n <= |files|
    ensures Distinct(files, n) <==>
              && (forall i :: 0 <= i < n ==> files[i].stem.Some?)
              && (forall i, j :: 0 <= i < j < n ==> files[i].stem != files[j].stem)
  {
    if n > 0 {
      DistinctPairs(files, n - 1);
    }
  }

  lemma {:induction false} FlatFrom(files: seq<File>, n: nat, path: seq<string>)
    requires n <= |files|
    ensures path in Flat(files, n) <==>
              exists k :: 0 <= k < n && files[k].stem.Some? && Segments(files[k].stem.value) == path
  {
    if n > 0 { FlatFrom(files, n - 1, path); }
  }

  /** A new file's path is free exactly when its name is new. */
  lemma DistinctNext(files: seq<File>, i: nat)
    requires i < |files| && files[i].stem.Some? && Distinct(files, i)
    ensures Distinct(files, i + 1) <==> Segments(files[i].stem.value) !in Flat(files, i)
  {
    var path := Segments(files[i].stem.value);
    FlatFrom(files, i, path);
    DottedOfSegments(files[i].stem.value);
    if path in Flat(files, i) {
      var j :| 0 <= j < i && files[j].stem.Some? && Segments(files[j].stem.value) == path;
      DottedOfSegments(files[j].stem.value);
    }
    DistinctPairs(files, i);
  }

  /** With distinct names, every file's contents are found at its own path. */
  lemma {:induction false} FlatAt(files: seq<File>, n: nat, k: nat)
    requires k < n <= |files| && Distinct(files, n)
    ensures files[k].stem.Some? && Segments(files[k].stem.value) in Flat(files, n)
    ensures Flat(files, n)[Segments(files[k].stem.value)] == files[k].content
  {
    if k < n - 1 {
      FlatAt(files, n - 1, k);
      DistinctNext(files, n - 1);
    }
  }

  // ---- the tree ----

  class Node {
    var children: map<string, Node>
    var contents: Option<string>

    constructor ()
      ensures children == map[] && contents == None
    {
      children, contents := map[], None;
    }
  }

  /** The nodes of a tree by their paths. */
  type Index = map<seq<string>, Node>

  /** `at` indexes a tree: a root, links exactly between a path and its one-step extensions, every
      node at one path only. */
  ghost predicate Shape(at: Index)
    reads at.Values
  {
    && [] in at
    && (forall p, s {:trigger s in at[p].children} {:trigger p + [s] in at} ::
          p in at ==> (s in at[p].children <==> p + [s] in at))
    && (forall p, s {:trigger at[p].children[s]} {:trigger at[p + [s]]} ::
          p in at && s in at[p].children ==> p + [s] in at && at[p].children[s] == at[p + [s]])
    && (forall p, q :: p in at && q in at && p != q ==> at[p] != at[q])
    && (forall p, s {:trigger p + [s] in at} :: p + [s] in at ==> p in at)
  }

  /** Each node holds what the flat map has for its path; every path of the flat map exists. */
  ghost predicate Holds(at: Index, flat: map<seq<string>, string>)
    reads at.Values
  {
    && (forall p :: p in at ==> at[p].contents == if p in flat then Some(flat[p]) else None)
    && flat.Keys <= at.Keys
  }

  /** The whole invariant of the tree under construction. */
  ghost predicate Tree(at: Index, root: Node, flat: map<seq<string>, string>)
    reads at.Values
  {
    Shape(at) && Holds(at, flat) && at[[]] == root
  }

  datatype Error = UnexpectedName | Duplicate(stem: string)

  /** `children.entry(seg).or_default()`: the child of a node, created empty when missing. */
  method Child(node: Node, seg: string, ghost at: Index, ghost path: seq<string>, ghost flat: map<seq<string>, string>)
    returns (child: Node, ghost at': Index)
    requires Shape(at) && Holds(at, flat) && path in at && at[path] == node
    modifies node
    ensures Shape(at') && Holds(at', flat)
    ensures path + [seg] in at' && at'[path + [seg]] == child
    ensures at.Keys <= at'.Keys && fresh(at'.Values - at.Values)
    ensures forall p :: p in at ==> at'[p] == at[p]
  {
    if seg in node.children {
      return node.children[seg], at;
    }
    child := new Node();
    node.children := node.children[seg := child];
    at' := at[path + [seg] := child];
    assert at'.Values <= at.Values + {child};
    IndexGrew(at, at', path, seg, child);
  }

  lemma IndexGrew(at: Index, at': Index, path: seq<string>, seg: string, child: Node)
    requires path in at && path + [seg] !in at && at' == at[path + [seg] := child]
    requires child !in at.Values && child.children == map[]
    requires [] in at
    requires forall p, q :: p in at && q in at && p != q ==> at[p] != at[q]
    requires forall p, s {:trigger p + [s] in at} :: p + [s] in at ==> p in at
    requires seg in at[path].children && at[path].children[seg] == child
    requires forall s {:trigger s in at[path].children} {:trigger path + [s] in at} ::
               s != seg ==> (s in at[path].children <==> path + [s] in at)
    requires forall s {:trigger at[path].children[s]} {:trigger at[path + [s]]} ::
               s != seg && s in at[path].children ==> path + [s] in at && at[path].children[s] == at[path + [s]]
    requires forall p, s {:trigger s in at[p].children} {:trigger p + [s] in at} ::
               p in at && p != path ==> (s in at[p].children <==> p + [s] in at)
    requires forall p, s {:trigger at[p].children[s]} {:trigger at[p + [s]]} ::
               p in at && p != path && s in at[p].children ==> p + [s] in at && at[p].children[s] == at[p + [s]]
    ensures Shape(at')
  {
    forall p, s | p in at' ensures s in at'[p].children <==> p + [s] in at' {
      assert (p + [s])[..|p|] == p && (p + [s])[|p|] == s;
      assert (path + [seg])[..|path|] == path && (path + [seg])[|path|] == seg;
    }
    forall p: seq<string>, s: string | p + [s] in at' ensures p in at' {
      if p + [s] == path + [seg] {
        assert (p + [s])[..|p|] == p && (path + [seg])[..|path|] == path;
      }
    }
  }

  /** The cursor's walk down the dotted segments. */
  method Descend(root: Node, segs: seq<string>, ghost at: Index, ghost flat: map<seq<string>, string>)
    returns (cursor: Node, ghost at': Index)
    requires Shape(at) && Holds(at, flat) && at[[]] == root
    modifies at.Values
    ensures Shape(at') && Holds(at', flat) && at'[[]] == root
    ensures segs in at' && at'[segs] == cursor
    ensures fresh(at'.Values - at.Values)
  {
    cursor, at' := root, at;
    var k := 0;
    assert segs[..0] == [];
    while k < |segs|
      invariant 0 <= k <= |segs|
      invariant Shape(at') && Holds(at', flat) && at'[[]] == root
      invariant fresh(at'.Values - at.Values)
      invariant segs[..k] in at' && at'[segs[..k]] == cursor
    {
      TakeSnoc(segs, k);
      cursor, at' := Child(cursor, segs[k], at', segs[..k], flat);
      k := k + 1;
    }
    assert segs[..|segs|] == segs;
  }

  /** `cursor.contents.replace(content)`: whether there was something to replace. */
  method Replace(
      cursor: Node, content: string, ghost path: seq<string>, ghost at: Index,
      ghost flat: map<seq<string>, string>)
    returns (taken: bool)
    requires Shape(at) && Holds(at, flat) && path in at && at[path] == cursor
    modifies cursor`contents
    ensures Shape(at) && Holds(at, flat[path := content])
    ensures taken <==> path in flat
  {
    taken := cursor.contents.Some?;
    cursor.contents := Some(content);
    forall p | p in at && p != path ensures at[p].contents == old(at[p].contents) {
      assert at[p] != at[path];
    }
  }

  /** The empty root. */
  method NewTree() returns (root: Node, ghost at: Index)
    ensures Tree(at, root, map[]) && fresh(at.Values)
  {
    root := new Node();
    at := map[[] := root];
  }

  /** The complaint is about the first file that spoils the names: it has none, or one already seen. */
  ghost predicate FirstSpoiler(files: seq<File>, error: Error) {
    exists i {:trigger files[i]} ::
      && 0 <= i < |files| && Distinct(files, i) && !Distinct(files, i + 1)
      && match files[i].stem
         case None => error == UnexpectedName
         case Some(stem) => error == Duplicate(stem) && exists j :: 0 <= j < i && files[j].stem == Some(stem)
  }

  /** `build_tree`. It succeeds exactly when every file has a name and no two share one; the tree
      then holds every file's contents at the end of its dotted path, and nothing anywhere else.
      Otherwise it complains about the first file that has no name or a name already seen. */
  method BuildTree(files: seq<File>) returns (r: Result<Node, Error>, ghost at: Index)
    ensures r.Ok? <==> Distinct(files, |files|)
    ensures r.Ok? ==> Tree(at, r.value, Flat(files, |files|))
    ensures r.Err? ==> FirstSpoiler(files, r.error)
  {
    var root;
    root, at := NewTree();
    ghost var nodes := at.Values;
    var i := 0;
    while i < |files|
      invariant 0 <= i <= |files| && Distinct(files, i)
      invariant Tree(at, root, Flat(files, i))
      invariant at.Values <= nodes && fresh(nodes)
    {
      var error;
      error, at, nodes := Place(root, files, i, at, nodes);
      if error.Some? {
        NotDistinct(files, i + 1, |files|);
        Spoils(files, i, error.value);
        return Err(error.value), at;
      }
      i := i + 1;
    }
    return Ok(root), at;
  }

  /** One round of the loop: find the end of the file's path, and put its contents there. */
  method Place(root: Node, files: seq<File>, i: nat, ghost at: Index, ghost nodes: set<Node>)
    returns (error: Option<Error>, ghost at': Index, ghost nodes': set<Node>)
    requires i < |files| && Distinct(files, i) && at.Values <= nodes
    requires Tree(at, root, Flat(files, i))
    modifies nodes
    ensures fresh(nodes' - nodes) && at'.Values <= nodes'
    ensures error.None? <==> Distinct(files, i + 1)
    ensures error.None? ==> Tree(at', root, Flat(files, i + 1))
    ensures error.Some? ==> error.value == match files[i].stem case None => UnexpectedName case Some(s) => Duplicate(s)
  {
    if files[i].stem.None? {
      return Some(UnexpectedName), at, nodes;
    }
    var segs := Segments(files[i].stem.value);
    nodes' := nodes;
    ghost var flat := Flat(files, i);
    DistinctNext(files, i);
    var cursor;
    cursor, at' := Descend(root, segs, at, flat);
    nodes' := nodes + at'.Values;
    var taken := Replace(cursor, files[i].content, segs, at', flat);
    error := if taken then Some(Duplicate(files[i].stem.value)) else None;
  }

  lemma Spoils(files: seq<File>, i: nat, error: Error)
    requires i < |files| && Distinct(files, i) && !Distinct(files, i + 1)
    requires error == match files[i].stem case None => UnexpectedName case Some(s) => Duplicate(s)
    ensures FirstSpoiler(files, error)
  {
    if files[i].stem.Some? {
      var j :| 0 <= j < i && files[j].stem == files[i].stem;
    }
  }

  lemma {:induction false} NotDistinct(files: seq<File>, n: nat, m: nat)
    requires n <= m <= |files|
    ensures Distinct(files, m) ==> Distinct(files, n)
  {
    if n < m { NotDistinct(files, n, m - 1); }
  }

  /** Following a path from the root finds what the flat map holds there, and nothing else. */
  method Find(root: Node, path: seq<string>, ghost at: Index, ghost flat: map<seq<string>, string>)
    returns (found: Option<string>)
    requires Shape(at) && Holds(at, flat) && at[[]] == root
    ensures found == if path in flat then Some(flat[path]) else None
  {
    var cursor, k := root, 0;
    assert path[..0] == [];
    while k < |path|
      invariant 0 <= k <= |path| && path[..k] in at && at[path[..k]] == cursor
    {
      TakeSnoc(path, k);
      if path[k] !in cursor.children {
        if path in at {
          PrefixClosed(at, path, k + 1);
        }
        return None;
      }
      cursor := cursor.children[path[k]];
      k := k + 1;
    }
    assert path[..|path|] == path;
    return cursor.contents;
  }

  lemma {:induction false} PrefixClosed(at: Index, path: seq<string>, k: nat)
    requires Shape(at) && path in at && k <= |path|
    ensures path[..k] in at
    decreases |path|
  {
    if k == |path| {
      assert path[..k] == path;
    } else {
      assert path == path[..|path| - 1] + [path[|path| - 1]];
      PrefixClosed(at, path[..|path| - 1], k);
      assert path[..|path| - 1][..k] == path[..k];
    }
  }

  // ---- emission ----

  /** The emitted code: contents, or a nested module. */
  datatype Token = Content(text: string) | Mod(name: string, body: seq<Token>)

  /** Every piece of contents in the code with the module path it is nested under. */
  function Leaves(tokens: seq<Token>, path: seq<string>): multiset<(seq<string>, string)> {
    if tokens == [] then multiset{}
    else Leaves(tokens[..|tokens| - 1], path) + LeavesOf(tokens[|tokens| - 1], path)
  }

  function LeavesOf(token: Token, path: seq<string>): multiset<(seq<string>, string)> {
    match token
    case Content(text) => multiset{(path, text)}
    case Mod(name, body) => Leaves(body, path + [name])
  }

  /** The contents held at a path, or below it through one of the given children. */
  ghost function Held(at: Index, path: seq<string>, names: set<string>): set<(seq<string>, string)>
    reads at.Values
  {
    set p | p in at && at[p].contents.Some? && (p == path || Below(path, p, names)) :: (p, at[p].contents.value)
  }

  /** `emit_tree`: the contents of a node, then each child in a module of its own, in any order.
      Everything held at or below the node is emitted exactly once, nested under its own path. */
  method EmitTree(node: Node, ghost at: Index, ghost path: seq<string>, ghost depth: nat) returns (tokens: seq<Token>)
    requires Shape(at) && path in at && at[path] == node
    requires forall p :: p in at ==> |p| <= depth
    ensures Leaves(tokens, path) == multiset(Held(at, path, at[path].children.Keys))
    decreases depth - |path|, 1
  {
    tokens := [];
    if node.contents.Some? {
      tokens := tokens + [Content(node.contents.value)];
    }
    var names := node.children.Keys;
    var todo := names;
    HeldHere(at, path);
    assert names - todo == {};
    while todo != {}
      invariant todo <= names
      invariant Leaves(tokens, path) == multiset(Held(at, path, names - todo))
      decreases |todo|
    {
      var name :| name in todo;
      tokens := EmitChild(node, name, tokens, at, path, names - todo, depth);
      DoneGrows(names, todo, name);
      todo := todo - {name};
    }
    assert names - todo == names;
  }

  /** One child, in a module of its own. */
  method EmitChild(
      node: Node, name: string, tokens: seq<Token>, ghost at: Index, ghost path: seq<string>, ghost done: set<string>,
      ghost depth: nat)
    returns (more: seq<Token>)
    requires Shape(at) && path in at && at[path] == node && name in node.children && name !in done
    requires forall p :: p in at ==> |p| <= depth
    requires Leaves(tokens, path) == multiset(Held(at, path, done))
    ensures Leaves(more, path) == multiset(Held(at, path, done + {name}))
    decreases depth - |path|, 0
  {
    var inner := EmitTree(node.children[name], at, path + [name], depth);
    EmitsOne(at, path, done, tokens, name, inner);
    more := tokens + [Mod(name, inner)];
  }

  lemma DoneGrows<T>(all: set<T>, todo: set<T>, x: T)
    requires x in todo && todo <= all
    ensures all - todo + {x} == all - (todo - {x})
  {
  }

  lemma EmitsOne(at: Index, path: seq<string>, done: set<string>, tokens: seq<Token>, name: string, inner: seq<Token>)
    requires Shape(at) && path in at && name in at[path].children && name !in done
    requires Leaves(tokens, path) == multiset(Held(at, path, done))
    requires Leaves(inner, path + [name]) == multiset(Held(at, path + [name], at[path + [name]].children.Keys))
    ensures Leaves(tokens + [Mod(name, inner)], path) == multiset(Held(at, path, done + {name}))
  {
    HeldGrows(at, path, done, name);
    AddDisjoint(Held(at, path, done), Held(at, path + [name], at[path + [name]].children.Keys));
    LeavesSnoc(tokens, Mod(name, inner), path);
  }

  lemma AddDisjoint<T>(a: set<T>, b: set<T>)
    requires a !! b
    ensures multiset(a + b) == multiset(a) + multiset(b)
  {
  }

  lemma LeavesSnoc(tokens: seq<Token>, last: Token, path: seq<string>)
    ensures Leaves(tokens + [last], path) == Leaves(tokens, path) + LeavesOf(last, path)
  {
    assert (tokens + [last])[..|tokens|] == tokens;
  }

  lemma HeldGrows(at: Index, path: seq<string>, done: set<string>, name: string)
    requires Shape(at) && path in at && name in at[path].children && name !in done
    ensures var below := Held(at, path + [name], at[path + [name]].children.Keys);
            && Held(at, path, done + {name}) == Held(at, path, done) + below
            && Held(at, path, done) !! below
  {
    var child := path + [name];
    var kids := at[child].children.Keys;
    forall p | p in at
      ensures Below(path, p, done + {name}) <==> Below(path, p, done) || p == child || Below(child, p, kids)
      ensures p == path || Below(path, p, done) ==> p != child && !Below(child, p, kids)
    {
      BelowChild(at, path, name, p);
    }
  }

  /** `p` lies strictly below `path`, through one of the given children. */
  ghost predicate Below(path: seq<string>, p: seq<string>, names: set<string>) {
    path < p && p[|path|] in names
  }

  lemma BelowChild(at: Index, path: seq<string>, name: string, p: seq<string>)
    requires Shape(at) && path + [name] in at && p in at
    ensures Below(path, p, {name}) <==> (p == path + [name] || Below(path + [name], p, at[path + [name]].children.Keys))
  {
    var child := path + [name];
    PrefixVia(path, name, p);
    if child < p {
      PrefixClosed(at, p, |child| + 1);
      TakeSnoc(p, |child|);
      assert p[..|child|] == child;
      assert child + [p[|child|]] in at;
    }
  }

  lemma PrefixVia<T>(path: seq<T>, name: T, p: seq<T>)
    ensures (path < p && p[|path|] == name) <==> path + [name] <= p
    ensures path + [name] <= p ==> p == path + [name] || path + [name] < p
  {
    if path < p { TakeSnoc(p, |path|); }
  }

  lemma HeldHere(at: Index, path: seq<string>)
    requires Shape(at) && path in at
    ensures Held(at, path, {}) == if at[path].contents.None? then {} else {(path, at[path].contents.value)}
  {
  }

  /** The whole macro: building and emitting distinct packages puts each file's contents into the
      code once, under the module path of its package. */
  method Expand(files: seq<File>) returns (r: Result<seq<Token>, Error>)
    ensures r.Ok? <==> Distinct(files, |files|)
    ensures r.Err? ==> FirstSpoiler(files, r.error)
    ensures r.Ok? ==> forall k :: 0 <= k < |files| ==>
              files[k].stem.Some? &&
              Leaves(r.value, [])[(Segments(files[k].stem.value), files[k].content)] == 1
    ensures r.Ok? ==> forall p, text :: (p, text) in Leaves(r.value, []) ==>
              p in Flat(files, |files|) && Flat(files, |files|)[p] == text
  {
    ghost var at;
    var tree;
    tree, at := BuildTree(files);
    if tree.Err? {
      return Err(tree.error);
    }
    ghost var depth := Bound(at);
    var tokens := EmitTree(tree.value, at, [], depth);
    HeldAll(at);
    forall k | 0 <= k < |files|
      ensures files[k].stem.Some? && Leaves(tokens, [])[(Segments(files[k].stem.value), files[k].content)] == 1
    {
      FlatAt(files, |files|, k);
    }
    return Ok(tokens);
  }

  lemma HeldAll(at: Index)
    requires Shape(at)
    ensures forall p :: p in at && at[p].contents.Some? ==>
              (p, at[p].contents.value) in Held(at, [], at[[]].children.Keys)
  {
    forall p | p in at && p != [] ensures p[0] in at[[]].children {
      PrefixClosed(at, p, 1);
      assert p[..1] == [] + [p[0]];
    }
  }

  lemma Bound(at: Index) returns (depth: nat)
    ensures forall p :: p in at ==> |p| <= depth
    decreases |at|
  {
    if at == map[] {
      depth := 0;
    } else {
      var p :| p in at;
      var rest := Bound(at - {p});
      depth := if |p| > rest then |p| else rest;
    }
  }
}
