/**
  The directory tree of include/common/models/file_system.h and src/common/models/file_system.cpp:
  printing a node's path and looking it up again. Owners, times and file contents are left out.
 */
module FileSystem {

  class Node {
    const isDirectory: bool
    var name: string
    var parent: Node?
    var children: map<string, Node>
    ghost var depth: nat

    constructor (name: string, isDirectory: bool)
      ensures this.name == name && this.isDirectory == isDirectory && parent == null && children == map[]
    {
      this.name, this.isDirectory, parent, children, depth := name, isDirectory, null, map[], 0;
    }
  }

  /**
    The nodes are those at and below `top`: a child is held under its own name, its parent is its
    holder, and levels count up from the top, so no node is its own ancestor. The top itself may have
    any parent link, as a node that was taken out of its directory keeps the old one.
   */
  ghost predicate Subtree(top: Node, nodes: set<Node>)
    reads nodes
  {
    && top in nodes
    && (forall n | n in nodes && n != top ::
          n.parent != null && n.parent in nodes && n.depth == n.parent.depth + 1 && n.parent.isDirectory
          && n.name in n.parent.children && n.parent.children[n.name] == n)
    && (forall n, key | n in nodes && key in n.children ::
          var child := n.children[key];
          child in nodes && child != top && child.name == key && child.parent == n)
  }

  /** The nodes form a tree below a root directory; its name is usually empty, but need not be. */
  ghost predicate Tree(root: Node, nodes: set<Node>)
    reads nodes
  {
    Subtree(root, nodes) && root.isDirectory && root.parent == null
  }

  // ------------------------------------------------------- paths

  function GetPath(root: Node, ghost nodes: set<Node>, n: Node): string
    requires Tree(root, nodes) && n in nodes
    reads nodes
    decreases n.depth
  {
    if n.parent != null then
      var parentPath := GetPath(root, nodes, n.parent);
      if parentPath == "/" then parentPath + n.name else parentPath + "/" + n.name
    else "/" + n.name  // only the root has no parent, and it is a directory
  }

  /** The directory at the top of a node's chain of parents. */
  function Climb(root: Node, ghost nodes: set<Node>, n: Node): (top: Node)
    requires Tree(root, nodes) && n in nodes
    reads nodes
    ensures top == root
    decreases n.depth
  {
    if n.parent == null then n else Climb(root, nodes, n.parent)
  }

  function FindSlash(path: string): (i: nat)
    ensures i <= |path| && forall j | 0 <= j < i :: path[j] != '/'
    ensures i < |path| ==> path[i] == '/'
  {
    if path == "" || path[0] == '/' then 0 else 1 + FindSlash(path[1..])
  }

  /** getNode: the child held under a name. */
  function GetNode(directory: Node, name: string): Node?
    reads directory
  {
    if name in directory.children then directory.children[name] else null
  }

  /** getNodeByPath: both recursions consume the path. */
  function GetNodeByPath(root: Node, ghost nodes: set<Node>, directory: Node, path: string): (n: Node?)
    requires Tree(root, nodes) && directory in nodes && directory.isDirectory
    reads nodes
    ensures n != null ==> n in nodes
    decreases |path|
  {
    if path == "" then null
    else if path[0] == '/' then
      var top := Climb(root, nodes, directory);
      if path == "/" then top else GetNodeByPath(root, nodes, top, path[1..])
    else
      var pos := FindSlash(path);
      if pos == |path| then GetNode(directory, path)
      else
        var node := GetNode(directory, path[..pos]);
        if node != null && node.isDirectory then GetNodeByPath(root, nodes, node, path[pos + 1..]) else null
  }

  // ------------------------------------------------------- round trip

  predicate GoodName(name: string) {
    name != "" && '/' !in name
  }

  /** Every name from the node up to the root can be written in a path. */
  ghost predicate GoodChain(root: Node, nodes: set<Node>, n: Node)
    requires Tree(root, nodes) && n in nodes
    reads nodes
    decreases n.depth
  {
    n == root || (GoodName(n.name) && GoodChain(root, nodes, n.parent))
  }

  lemma SlashAfter(name: string, rest: string)
    requires '/' !in name
    ensures var path := name + "/" + rest;
            FindSlash(path) == |name| && path[..|name|] == name && path[|name| + 1..] == rest
    ensures FindSlash(name) == |name|
  {
    var path := name + "/" + rest;
    var i, j := FindSlash(path), FindSlash(name);
    assert path[|name|] == '/';
    assert forall k | 0 <= k < |name| :: path[k] == name[k];
  }

  // ------------------------------------------------------- paths put together

  /** Where a path that goes on after a name leads: on from what the first part finds. */
  lemma {:induction false} LookupConcat(root: Node, nodes: set<Node>, d: Node, x: string, y: string)
    requires Tree(root, nodes) && d in nodes && d.isDirectory && x != "" && x[|x| - 1] != '/'
    ensures var m := GetNodeByPath(root, nodes, d, x);
            GetNodeByPath(root, nodes, d, x + "/" + y)
            == if m != null && m.isDirectory then GetNodeByPath(root, nodes, m, y) else null
    decreases |x|
  {
    var path := x + "/" + y;
    if x[0] == '/' {
      assert path[1..] == x[1..] + "/" + y;
      LookupConcat(root, nodes, root, x[1..], y);
    } else {
      var pos := FindSlash(x);
      var name := x[..pos];
      FirstName(x, y);
      if pos < |x| {
        var node := GetNode(d, name);
        if node != null && node.isDirectory {
          LookupConcat(root, nodes, node, x[pos + 1..], y);
        }
      }
    }
  }

  lemma FirstName(x: string, y: string)
    requires x != "" && x[|x| - 1] != '/'
    ensures var pos, path := FindSlash(x), x + "/" + y;
            && FindSlash(path) == pos && path[..pos] == x[..pos]
            && path[pos + 1..] == (if pos == |x| then y else x[pos + 1..] + "/" + y)
            && (pos == |x| ==> x[..pos] == x)
            && (pos < |x| ==> x[pos + 1..] != "" && x[pos + 1..][|x[pos + 1..]| - 1] != '/')
  {
    var pos := FindSlash(x);
    if pos == |x| {
      assert x[..pos] == x;
      SlashAfter(x, y);
    } else {
      var name, rest := x[..pos], x[pos + 1..];
      assert x == name + "/" + rest;
      assert x + "/" + y == name + "/" + (rest + "/" + y);
      SlashAfter(name, rest + "/" + y);
      assert rest != "" ==> rest[|rest| - 1] == x[|x| - 1];
    }
  }

  /** The empty path and a path that ends in one slash after a name lead nowhere. */
  lemma EndsInSlash(root: Node, nodes: set<Node>, d: Node, x: string)
    requires Tree(root, nodes) && d in nodes && d.isDirectory && x != "" && x[|x| - 1] != '/'
    ensures GetNodeByPath(root, nodes, d, "") == null && GetNodeByPath(root, nodes, d, x + "/") == null
  {
    assert x + "/" + "" == x + "/";
    LookupConcat(root, nodes, d, x, "");
  }

  /** A name leads to the child of that name, and on from it when it is a directory. */
  lemma NameLeadsToChild(root: Node, nodes: set<Node>, d: Node, name: string, rest: string)
    requires Tree(root, nodes) && d in nodes && d.isDirectory && GoodName(name)
    ensures GetNodeByPath(root, nodes, d, name) == if name in d.children then d.children[name] else null
    ensures name in d.children && d.children[name].isDirectory ==>
              GetNodeByPath(root, nodes, d, name + "/" + rest) == GetNodeByPath(root, nodes, d.children[name], rest)
    ensures name !in d.children || !d.children[name].isDirectory ==>
              GetNodeByPath(root, nodes, d, name + "/" + rest) == null
  {
    SlashAfter(name, rest);
    LookupConcat(root, nodes, d, name, rest);
  }

  // A path that ends in a name leads to a child of some directory.
  lemma {:induction false} NamesLeadBelow(root: Node, nodes: set<Node>, d: Node, x: string)
    requires Tree(root, nodes) && d in nodes && d.isDirectory && x != "" && x[|x| - 1] != '/'
    ensures GetNodeByPath(root, nodes, d, x) != root
    decreases |x|
  {
    if x[0] == '/' {
      NamesLeadBelow(root, nodes, root, x[1..]);
    } else if FindSlash(x) < |x| {
      var pos := FindSlash(x);
      var node := GetNode(d, x[..pos]);
      if node != null && node.isDirectory {
        NamesLeadBelow(root, nodes, node, x[pos + 1..]);
      }
    }
  }

  function Slashes(k: nat): string {
    seq(k, _ => '/')
  }

  /** Slashes in front lead to the root, from anywhere. */
  lemma {:induction false} SlashesLeadHome(root: Node, nodes: set<Node>, d: Node, k: nat, rest: string)
    requires Tree(root, nodes) && d in nodes && d.isDirectory && k > 0
    ensures GetNodeByPath(root, nodes, d, Slashes(k) + rest)
         == if rest == "" then root else GetNodeByPath(root, nodes, root, rest)
    decreases k
  {
    var path := Slashes(k) + rest;
    assert path[0] == '/' && path[1..] == Slashes(k - 1) + rest;
    if k > 1 {
      SlashesLeadHome(root, nodes, root, k - 1, rest);
    } else {
      assert Slashes(0) + rest == rest;
    }
  }

  /** The name without the slashes it ends in. */
  function Trim(s: string): (q: string)
    ensures |q| <= |s| && s == q + Slashes(|s| - |q|) && (q != "" ==> q[|q| - 1] != '/')
  {
    if s == "" || s[|s| - 1] != '/' then s else Trim(s[..|s| - 1])
  }

  // ------------------------------------------------------- round trip

  /** The names from below the root down to a node. */
  function RelativePath(root: Node, ghost nodes: set<Node>, n: Node): string
    requires Tree(root, nodes) && n in nodes && n != root
    reads nodes
    decreases n.depth
  {
    if n.parent == root then n.name else RelativePath(root, nodes, n.parent) + "/" + n.name
  }

  lemma {:induction false} RelativeFinds(root: Node, nodes: set<Node>, n: Node)
    requires Tree(root, nodes) && n in nodes && n != root && GoodChain(root, nodes, n)
    ensures var path := RelativePath(root, nodes, n);
            && path != "" && path[0] != '/' && path[|path| - 1] != '/'
            && GetNodeByPath(root, nodes, root, path) == n
    decreases n.depth
  {
    SlashAfter(n.name, "");
    if n.parent != root {
      RelativeFinds(root, nodes, n.parent);
      LookupConcat(root, nodes, root, RelativePath(root, nodes, n.parent), n.name);
    }
  }

  // Followed from elsewhere, the names lead as many levels down.
  lemma {:induction false} RelativeDepth(root: Node, nodes: set<Node>, d: Node, n: Node)
    requires Tree(root, nodes) && n in nodes && n != root && GoodChain(root, nodes, n)
    requires d in nodes && d.isDirectory
    ensures var m := GetNodeByPath(root, nodes, d, RelativePath(root, nodes, n));
            m != null ==> m.depth == d.depth + n.depth - root.depth
    decreases n.depth
  {
    SlashAfter(n.name, "");
    if n.parent != root {
      RelativeFinds(root, nodes, n.parent);
      RelativeDepth(root, nodes, d, n.parent);
      LookupConcat(root, nodes, d, RelativePath(root, nodes, n.parent), n.name);
    }
  }

  lemma {:induction false} PathOfGoodNode(root: Node, nodes: set<Node>, n: Node)
    requires Tree(root, nodes) && n in nodes && n != root && GoodChain(root, nodes, n)
    ensures var front := if root.name == "" then "/" else "/" + root.name + "/";
            GetPath(root, nodes, n) == front + RelativePath(root, nodes, n)
    decreases n.depth
  {
    if n.parent != root {
      PathOfGoodNode(root, nodes, n.parent);
      RelativeFinds(root, nodes, n.parent);
    }
  }

  /**
    A path through the root's name comes back to the root: the name has only slashes, or it ends in
    enough of them and what stands before them leads to a directory.
   */
  ghost predicate NameReturns(root: Node, nodes: set<Node>, slashes: nat)
    requires Tree(root, nodes)
    reads nodes
  {
    var q := Trim(root.name);
    q == "" ||
    (|root.name| - |q| >= slashes
     && var m := GetNodeByPath(root, nodes, root, q); m != null && m.isDirectory)
  }

  lemma RootReturns(root: Node, nodes: set<Node>)
    requires Tree(root, nodes) && root.name != ""
    ensures GetNodeByPath(root, nodes, root, root.name) == root <==> NameReturns(root, nodes, 2)
  {
    var r, q := root.name, Trim(root.name);
    var k := |r| - |q|;
    if q == "" {
      assert r == Slashes(k) + "";
      SlashesLeadHome(root, nodes, root, k, "");
    } else if k == 0 {
      NamesLeadBelow(root, nodes, root, q);
    } else {
      assert r == q + "/" + Slashes(k - 1);
      LookupConcat(root, nodes, root, q, Slashes(k - 1));
      var m := GetNodeByPath(root, nodes, root, q);
      if k > 1 && m != null && m.isDirectory {
        assert Slashes(k - 1) + "" == Slashes(k - 1);
        SlashesLeadHome(root, nodes, m, k - 1, "");
      }
    }
  }

  lemma NodeReturns(root: Node, nodes: set<Node>, n: Node)
    requires Tree(root, nodes) && n in nodes && n != root && GoodChain(root, nodes, n)
    ensures GetNodeByPath(root, nodes, root, root.name + "/" + RelativePath(root, nodes, n)) == n
       <==> NameReturns(root, nodes, 1)
  {
    var r, q, rest := root.name, Trim(root.name), RelativePath(root, nodes, n);
    var k := |r| - |q|;
    RelativeFinds(root, nodes, n);
    if q == "" {
      assert r + "/" + rest == Slashes(k + 1) + rest;
      SlashesLeadHome(root, nodes, root, k + 1, rest);
    } else {
      assert r + "/" + rest == q + "/" + (Slashes(k) + rest);
      LookupConcat(root, nodes, root, q, Slashes(k) + rest);
      var m := GetNodeByPath(root, nodes, root, q);
      if m != null && m.isDirectory {
        if k > 0 {
          SlashesLeadHome(root, nodes, m, k, rest);
        } else {
          assert Slashes(0) + rest == rest;
          NamesLeadBelow(root, nodes, root, q);
          RelativeDepth(root, nodes, m, n);
          DeeperBelow(root, nodes, m.parent);
        }
      }
    }
  }

  // Whatever a path leads to from a well-named directory is well named: lookups only ever ask for
  // non-empty names without a slash.
  lemma {:induction false} LookupFindsGoodNodes(root: Node, nodes: set<Node>, directory: Node, path: string)
    requires Tree(root, nodes) && directory in nodes && directory.isDirectory && GoodChain(root, nodes, directory)
    ensures var n := GetNodeByPath(root, nodes, directory, path); n != null ==> GoodChain(root, nodes, n)
    decreases |path|
  {
    if path == "" || path == "/" {
    } else if path[0] == '/' {
      LookupFindsGoodNodes(root, nodes, root, path[1..]);
    } else {
      var pos := FindSlash(path);
      var key := path[..pos];
      assert pos > 0 && GoodName(key);
      assert pos == |path| ==> key == path;
      var node := GetNode(directory, key);
      if node != null {
        assert node.name == key && node.parent == directory;
        assert node != root;
        if pos < |path| && node.isDirectory {
          LookupFindsGoodNodes(root, nodes, node, path[pos + 1..]);
        }
      }
    }
  }

  /**
    Looking up a node's own path from any directory finds it exactly when the names below the root can
    be written and the path comes back through the root's name: always, if that name is empty.
   */
  lemma PathRoundTrip(root: Node, nodes: set<Node>, directory: Node, n: Node)
    requires Tree(root, nodes) && directory in nodes && directory.isDirectory && n in nodes
    ensures GetNodeByPath(root, nodes, directory, GetPath(root, nodes, n)) == n
       <==> GoodChain(root, nodes, n) && NameReturns(root, nodes, if n == root then 2 else 1)
  {
    PathIsAbsolute(root, nodes, n);
    var path := GetPath(root, nodes, n);
    if n == root {
      assert path[1..] == root.name;
      if root.name != "" {
        RootReturns(root, nodes);
      }
    } else if GoodChain(root, nodes, n) {
      var rest := RelativePath(root, nodes, n);
      RelativeFinds(root, nodes, n);
      PathOfGoodNode(root, nodes, n);
      assert path[1..] == if root.name == "" then rest else root.name + "/" + rest;
      NodeReturns(root, nodes, n);
    } else {
      LookupFindsGoodNodes(root, nodes, root, path[1..]);
    }
  }

  lemma {:induction false} PathIsAbsolute(root: Node, nodes: set<Node>, n: Node)
    requires Tree(root, nodes) && n in nodes
    ensures GetPath(root, nodes, n) != "" && GetPath(root, nodes, n)[0] == '/'
    decreases n.depth
  {
    if n != root {
      PathIsAbsolute(root, nodes, n.parent);
    }
  }

  /** No two nodes with writable names have the same path. */
  lemma PathsDiffer(root: Node, nodes: set<Node>, m: Node, n: Node)
    requires Tree(root, nodes) && m in nodes && n in nodes && m != n
    requires GoodChain(root, nodes, m) && GoodChain(root, nodes, n)
    ensures GetPath(root, nodes, m) != GetPath(root, nodes, n)
  {
    if m == root {
      LongerThanRoot(root, nodes, n);
    } else if n == root {
      LongerThanRoot(root, nodes, m);
    } else {
      var front := if root.name == "" then "/" else "/" + root.name + "/";
      PathOfGoodNode(root, nodes, m);
      PathOfGoodNode(root, nodes, n);
      RelativeFinds(root, nodes, m);
      RelativeFinds(root, nodes, n);
      SameFront(front, RelativePath(root, nodes, m), RelativePath(root, nodes, n));
    }
  }

  lemma LongerThanRoot(root: Node, nodes: set<Node>, n: Node)
    requires Tree(root, nodes) && n in nodes && n != root && GoodChain(root, nodes, n)
    ensures |GetPath(root, nodes, n)| > |GetPath(root, nodes, root)|
  {
    PathOfGoodNode(root, nodes, n);
    RelativeFinds(root, nodes, n);
  }

  lemma SameFront(front: string, a: string, b: string)
    ensures front + a == front + b ==> a == b
  {
    assert (front + a)[|front|..] == a && (front + b)[|front|..] == b;
  }

  // ------------------------------------------------------- changing the tree

  lemma {:induction false} DeeperBelow(top: Node, below: set<Node>, n: Node)
    requires Subtree(top, below) && n in below
    ensures n.depth >= top.depth
    decreases n.depth
  {
    if n != top {
      DeeperBelow(top, below, n.parent);
    }
  }

  // Whoever shares a node with a tree is in it.
  lemma {:induction false} SharedMeansInside(root: Node, nodes: set<Node>, top: Node, below: set<Node>, n: Node)
    requires Tree(root, nodes) && Subtree(top, below) && n in nodes && n in below
    ensures top in nodes
    decreases n.depth
  {
    if n != top && n != root {
      SharedMeansInside(root, nodes, top, below, n.parent);
    }
  }

  lemma {:induction false} AllBelowRoot(root: Node, nodes: set<Node>, below: set<Node>, n: Node)
    requires Tree(root, nodes) && Subtree(root, below) && n in nodes
    ensures n in below
    decreases n.depth
  {
    if n != root {
      AllBelowRoot(root, nodes, below, n.parent);
    }
  }

  /** A node with no holder is outside the tree exactly when no directory of the tree lies at or below it. */
  lemma OutsideOrAbove(root: Node, nodes: set<Node>, directory: Node, node: Node, below: set<Node>)
    requires Tree(root, nodes) && directory in nodes && Subtree(node, below)
    ensures node !in nodes ==> below !! nodes
    ensures node.parent == null ==> (node in nodes <==> directory in below)
  {
    forall n | n in nodes && n in below
      ensures node in nodes
    {
      SharedMeansInside(root, nodes, node, below, n);
    }
    if node.parent == null && node in nodes {
      AllBelowRoot(root, nodes, below, directory);
    }
  }

  /** Everything the node holds has it for a parent and stands under its own name. */
  ghost predicate HoldsItsOwn(n: Node)
    reads n, n.children.Values
  {
    forall key | key in n.children :: n.children[key].parent == n && n.children[key].name == key
  }

  /** A node is listed by its parent; one that was taken out is not, although it keeps the parent link. */
  ghost predicate Listed(node: Node)
    reads node, node.parent
  {
    node.parent != null && node in node.parent.children.Values
  }

  /**
    addNode: attaches any node, with whatever it holds, under its own name unless the name is taken.
    The directory's tree grows into a tree exactly when the node was not in it. A parent that listed
    the node goes on listing it; so all stays in order exactly when no parent listed it, the parent
    link if any led to a directory in order, and the directory was not the node or below it.
   */
  method AddNode(root: Node, ghost nodes: set<Node>, directory: Node, node: Node, ghost below: set<Node>)
    returns (ok: bool)
    requires Tree(root, nodes) && directory in nodes && directory.isDirectory && Subtree(node, below)
    modifies directory`children, node`parent, below`depth
    ensures ok == (old(node.name) !in old(directory.children))
    ensures !ok ==> unchanged(directory, node, below)
    ensures ok ==> node.parent == directory && directory.children == old(directory.children)[node.name := node]
    ensures ok ==> (Tree(root, nodes + below) <==> node !in nodes)
    ensures ok && old(Listed(node)) ==>
              var holder := old(node.parent); holder != directory && node in holder.children.Values
    ensures ok ==>
              (Tree(root, nodes + below) && (old(node.parent) == null || HoldsItsOwn(old(node.parent)))
               <==> (old(node.parent) == null || old(HoldsItsOwn(node.parent) && !Listed(node))) && directory !in below)
  {
    if node.name in directory.children {
      return false;
    }
    OutsideOrAbove(root, nodes, directory, node, below);
    ghost var holder := node.parent;
    AttachBelow(root, nodes, directory, node, below);
    if holder != null {
      assert old(Listed(node)) ==> holder != directory && holder.children == old(holder.children);
      if old(HoldsItsOwn(holder) && !Listed(node)) {
        forall key | key in holder.children
          ensures holder.children[key].parent == holder && holder.children[key].name == key
        {
          if holder != directory || key != node.name {
            assert key in old(holder.children) && holder.children[key] == old(holder.children[key]) != node;
          }
        }
      } else if old(Listed(node)) {
        ghost var key :| key in holder.children && holder.children[key] == node;
        assert !HoldsItsOwn(holder);
      } else {
        ghost var key :| key in holder.children
                         && old(holder.children[key].parent != holder || holder.children[key].name != key);
        assert holder != directory && holder.children[key] != node;
        assert !HoldsItsOwn(holder);
      }
    }
    ok := true;
  }

  // Attaching, and what becomes of the directory's tree.
  method AttachBelow(root: Node, ghost nodes: set<Node>, directory: Node, node: Node, ghost below: set<Node>)
    requires Tree(root, nodes) && directory in nodes && directory.isDirectory && Subtree(node, below)
    requires node.name !in directory.children && (node !in nodes ==> below !! nodes)
    modifies directory`children, node`parent, below`depth
    ensures node.parent == directory && directory.children == old(directory.children)[node.name := node]
    ensures Tree(root, nodes + below) <==> node !in nodes
  {
    if node !in nodes {
      CountOn(directory, node, below);
    }
    Attach(directory, node);
    if node !in nodes {
      forall n | n in nodes + below && n != root
        ensures n.parent != null && n.parent in nodes + below && n.depth == n.parent.depth + 1 && n.parent.isDirectory
        ensures n.name in n.parent.children && n.parent.children[n.name] == n
      {
        assert n != node ==> n.parent == old(n.parent) && old(n.parent.children[n.name]) == n;
      }
      forall n, key | n in nodes + below && key in n.children
        ensures n.children[key] in nodes + below && n.children[key].name == key && n.children[key].parent == n
        ensures n.children[key] != root
      {
        if n != directory || key != node.name {
          assert key in old(n.children) && n.children[key] == old(n.children[key]);
        }
      }
    } else if node != root {
      ghost var holder := old(node.parent);
      assert holder in nodes && holder != directory && node.name in holder.children && holder.children[node.name] == node;
    }
  }

  method Attach(directory: Node, node: Node)
    modifies directory`children, node`parent
    ensures node.parent == directory && directory.children == old(directory.children)[node.name := node]
  {
    node.parent := directory;
    directory.children := directory.children[node.name := node];
  }

  // The levels of a subtree count on from its new holder.
  ghost method CountOn(directory: Node, node: Node, below: set<Node>)
    requires Subtree(node, below) && directory !in below
    modifies below`depth
    ensures forall n | n in below :: n.depth == old(n.depth) + directory.depth + 1 - old(node.depth)
  {
    forall n | n in below
      ensures n.depth >= node.depth
    {
      DeeperBelow(node, below, n);
    }
    forall n | n in below {
      n.depth := n.depth + directory.depth + 1 - node.depth;
    }
  }

  /** createFile and createDirectory: the tree grows by one node, or stays as it is. */
  method Create(root: Node, ghost nodes: set<Node>, directory: Node, name: string, isDirectory: bool)
    returns (node: Node?)
    requires Tree(root, nodes) && directory in nodes && directory.isDirectory
    modifies directory
    ensures node == null <==> name in old(directory.children)
    ensures node == null ==> unchanged(directory)
    ensures node != null ==>
              && fresh(node) && node.name == name && node.isDirectory == isDirectory
              && directory.children == old(directory.children)[name := node]
              && Tree(root, nodes + {node})
  {
    var n := new Node(name, isDirectory);
    var ok := AddNode(root, nodes, directory, n, {n});
    node := if ok then n else null;
  }

  /** renameNode: moves a child to a free name. Any name keeps the tree a tree. */
  method RenameNode(root: Node, ghost nodes: set<Node>, directory: Node, oldName: string, newName: string)
    returns (ok: bool)
    requires Tree(root, nodes) && directory in nodes && directory.isDirectory
    modifies directory, directory.children.Values
    ensures Tree(root, nodes)
    ensures ok == (newName !in old(directory.children) && oldName in old(directory.children))
    ensures !ok ==> forall n | n in nodes :: unchanged(n)
    ensures ok ==>
              && directory.children == (old(directory.children) - {oldName})[newName := old(directory.children[oldName])]
              && old(directory.children[oldName]).name == newName
    ensures forall n | n in nodes && n != directory :: n.children == old(n.children)
    ensures forall n | n in nodes && !(ok && n == old(directory.children[oldName])) :: n.name == old(n.name)
  {
    if newName in directory.children {
      return false;
    }
    if oldName in directory.children {
      MoveChild(root, nodes, directory, directory.children[oldName], oldName, newName);
      return true;
    }
    ok := false;
  }

  // Takes the child out, names it, and puts it back.
  method Relabel(directory: Node, node: Node, oldName: string, newName: string)
    requires node != directory
    modifies directory`children, node`name
    ensures directory.children == (old(directory.children) - {oldName})[newName := node]
    ensures node.name == newName
  {
    directory.children := directory.children - {oldName};
    node.name := newName;
    directory.children := directory.children[newName := node];
  }

  method MoveChild(root: Node, ghost nodes: set<Node>, directory: Node, node: Node, oldName: string, newName: string)
    requires Tree(root, nodes) && directory in nodes && directory.isDirectory
    requires newName !in directory.children && oldName in directory.children && node == directory.children[oldName]
    modifies directory`children, node`name
    ensures Tree(root, nodes)
    ensures directory.children == (old(directory.children) - {oldName})[newName := node]
    ensures node.name == newName
  {
    Relabel(directory, node, oldName, newName);
    forall n | n in nodes && n != root
      ensures n.name in n.parent.children && n.parent.children[n.name] == n
    {
      assert old(n.parent.children[n.name]) == n;
    }
    forall n, key | n in nodes && key in n.children
      ensures var child := n.children[key]; child in nodes && child.name == key && child.parent == n
    {
      if !(n == directory && key == newName) {
        assert key in old(n.children) && n.children[key] == old(n.children[key]);
      }
    }
  }

  /** The node is `top` or lies below it. */
  ghost predicate Under(root: Node, nodes: set<Node>, n: Node, top: Node)
    requires Tree(root, nodes) && n in nodes
    reads nodes
    decreases n.depth
  {
    n == top || (n != root && Under(root, nodes, n.parent, top))
  }

  lemma {:induction false} UnderIsDeeper(root: Node, nodes: set<Node>, n: Node, top: Node)
    requires Tree(root, nodes) && n in nodes && Under(root, nodes, n, top)
    ensures top in nodes && (n == top || n.depth > top.depth)
    decreases n.depth
  {
    if n != top {
      UnderIsDeeper(root, nodes, n.parent, top);
    }
  }

  /**
    removeNode: takes the child and everything below it out of the tree. The child keeps its parent
    link, but is not listed any more.
   */
  method RemoveNode(root: Node, ghost nodes: set<Node>, directory: Node, name: string) returns (ok: bool)
    requires Tree(root, nodes) && directory in nodes && directory.isDirectory
    modifies directory`children
    ensures ok == (name in old(directory.children))
    ensures !ok ==> unchanged(directory)
    ensures ok ==> directory.children == old(directory.children) - {name}
    ensures ok ==>
              var gone := old(directory.children[name]);
              && Tree(root, set n | n in nodes && !old(Under(root, nodes, n, gone)))
              && Subtree(gone, set n | n in nodes && old(Under(root, nodes, n, gone)))
              && gone.parent == directory && !Listed(gone) && HoldsItsOwn(directory)
  {
    if name !in directory.children {
      return false;
    }
    ghost var gone := directory.children[name];
    ghost var below := set n | n in nodes && Under(root, nodes, n, gone);
    CutAbove(root, nodes, gone, below);
    TakeOut(root, nodes, directory, name, gone, below);
    assert nodes - below == set n | n in nodes && !old(Under(root, nodes, n, gone));
    ok := true;
  }

  // What lies below a node is cut off from the rest of the tree at that node only.
  lemma CutAbove(root: Node, nodes: set<Node>, gone: Node, below: set<Node>)
    requires Tree(root, nodes) && gone in nodes && gone != root
    requires below == set n | n in nodes && Under(root, nodes, n, gone)
    ensures gone in below && root !in below && gone.parent !in below
    ensures forall n | n in nodes && n != root && n != gone :: n in below <==> n.parent in below
  {
    if Under(root, nodes, gone.parent, gone) {
      UnderIsDeeper(root, nodes, gone.parent, gone);
    }
  }

  method TakeOut(root: Node, ghost nodes: set<Node>, directory: Node, name: string, ghost gone: Node, ghost below: set<Node>)
    requires Tree(root, nodes) && directory in nodes && name in directory.children && directory.children[name] == gone
    requires below <= nodes && gone in below && root !in below && directory !in below
    requires forall n | n in nodes && n != root && n != gone :: n in below <==> n.parent in below
    modifies directory`children
    ensures directory.children == old(directory.children) - {name}
    ensures Tree(root, nodes - below) && Subtree(gone, below)
    ensures gone.parent == directory && !Listed(gone) && HoldsItsOwn(directory)
  {
    directory.children := directory.children - {name};
    forall n | n in nodes && n != root && n != gone
      ensures n.name in n.parent.children && n.parent.children[n.name] == n
    {
      assert old(n.name in n.parent.children && n.parent.children[n.name] == n);
    }
    forall n, key | n in nodes && key in n.children
      ensures n.children[key] in nodes && n.children[key] != gone && n.children[key] != root
      ensures n.children[key].name == key && n.children[key].parent == n
    {
      assert key in old(n.children) && n.children[key] == old(n.children[key]);
    }
  }

  /**
    A child taken out and added elsewhere in its old tree, not at or below itself, moves there with all
    it holds; where its name is taken it is lost.
   */
  method RemoveThenAdd(root: Node, ghost nodes: set<Node>, from: Node, child: Node, to: Node) returns (ok: bool)
    requires Tree(root, nodes) && from in nodes && from.isDirectory && to in nodes && to.isDirectory
    requires child in from.children.Values && !Under(root, nodes, to, child)
    modifies from`children, to`children, child`parent, nodes`depth
    ensures ok == (to == from || child.name !in old(to.children))
    ensures ok ==> Tree(root, nodes) && child.parent == to
    ensures ok && to == from ==> to.children == old(to.children)
    ensures ok && to != from ==> to.children == old(to.children)[child.name := child]
    ensures from != to ==> from.children == old(from.children) - {child.name}
    ensures !ok ==> Tree(root, set n | n in nodes && !old(Under(root, nodes, n, child)))
  {
    ghost var below := set n | n in nodes && Under(root, nodes, n, child);
    ghost var kept := nodes - below;
    var removed := RemoveNode(root, nodes, from, child.name);
    Separate(nodes, below, kept, set n | n in nodes && !old(Under(root, nodes, n, child)));
    assert Tree(root, kept) && Subtree(child, below) && to in kept && child !in kept;
    BackAgain(from.children, old(from.children), child.name);
    ok := AddNode(root, kept, to, child, below);
  }

  lemma BackAgain<T>(less: map<string, T>, m: map<string, T>, key: string)
    requires key in m && less == m - {key}
    ensures less[key := m[key]] == m
  {
  }

  lemma Separate(nodes: set<Node>, below: set<Node>, kept: set<Node>, rest: set<Node>)
    requires below <= nodes && kept == nodes - below && rest <= nodes && forall n | n in nodes :: n in rest <==> n !in below
    ensures kept == rest && kept + below == nodes
  {
  }
}
