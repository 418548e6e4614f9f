/**
 * Path resolution and folder creation in `MegaCmdExecuter`
 * (src/megacmdexecuter.cpp:261-484 and 2510-2603), over the account's node
 * tree as the SDK presents it.
 *
 * The SDK is abstract here: a map from handles to nodes (name, type,
 * parent), the order in which `getChildNode` meets children, the root,
 * inbox and rubbish nodes, and the contacts with their incoming shares.
 * `getChildNode` is the first child with the name in that order, and
 * `createFolder` appends a new folder at the end of it.
 */
module NodeTree {
  import opened Wrappers
  import opened Text
  import opened NodePath
  import opened MegaCmdCodes

  type Handle = nat

  /** MegaNode::TYPE_*: the executer only tells files from the rest. */
  datatype NodeType = File | Folder | RootNode | InboxNode | RubbishNode

  datatype Node = Node(name: string, kind: NodeType, parent: Option<Handle>)

  datatype Contact = Contact(email: string, inshares: seq<Handle>)

  datatype Tree = Tree(
    nodes: map<Handle, Node>,
    order: seq<Handle>,
    root: Option<Handle>,
    inbox: Option<Handle>,
    rubbish: Option<Handle>,
    contacts: seq<Contact>,
    next: Handle)

  /** Every listed handle is a node, and `next` is above every node's handle. */
  predicate WellFormed(t: Tree)
  {
    (forall h :: h in t.nodes ==> h < t.next) &&
    (forall i :: 0 <= i < |t.order| ==> t.order[i] in t.nodes)
  }

  predicate IsChild(t: Tree, k: Handle, h: Handle, name: string)
  {
    k in t.nodes && t.nodes[k].parent == Some(h) && t.nodes[k].name == name
  }

  /** The first handle of hs that is a child of h named name. */
  function FirstChild(t: Tree, hs: seq<Handle>, h: Handle, name: string): (r: Option<Handle>)
    ensures r.Some? ==> r.value in hs && IsChild(t, r.value, h, name)
    ensures r.None? ==> forall k :: k in hs ==> !IsChild(t, k, h, name)
  {
    if hs == [] then None
    else if IsChild(t, hs[0], h, name) then Some(hs[0])
    else
      assert forall k :: k in hs ==> k == hs[0] || k in hs[1..];
      FirstChild(t, hs[1..], h, name)
  }

  /** `getChildNode(h, name)`. */
  function ChildNamed(t: Tree, h: Handle, name: string): Option<Handle>
  {
    FirstChild(t, t.order, h, name)
  }

  /** `getParentNode(h)`: null when h or its parent is not a node. */
  function Parent(t: Tree, h: Handle): (r: Option<Handle>)
    ensures r.Some? ==> h in t.nodes && r.value in t.nodes && t.nodes[h].parent == r
  {
    if h in t.nodes && t.nodes[h].parent.Some? && t.nodes[h].parent.value in t.nodes then t.nodes[h].parent
    else None
  }

  /** `getNodeByHandle(h)`. */
  function Known(t: Tree, h: Handle): Option<Handle>
  {
    if h in t.nodes then Some(h) else None
  }

  /** The first contact with the email. */
  function ContactNamed(cs: seq<Contact>, email: string): (r: Option<Contact>)
    ensures r.Some? ==> r.value in cs && r.value.email == email
    ensures r.None? ==> forall u :: u in cs ==> u.email != email
  {
    if cs == [] then None
    else if cs[0].email == email then Some(cs[0])
    else
      assert forall u :: u in cs ==> u == cs[0] || u in cs[1..];
      ContactNamed(cs[1..], email)
  }

  /** The first incoming share with the name. */
  function ShareNamed(t: Tree, hs: seq<Handle>, name: string): (r: Option<Handle>)
    ensures r.Some? ==> r.value in hs && r.value in t.nodes && t.nodes[r.value].name == name
    ensures r.None? ==> forall k :: k in hs && k in t.nodes ==> t.nodes[k].name != name
  {
    if hs == [] then None
    else if hs[0] in t.nodes && t.nodes[hs[0]].name == name then Some(hs[0])
    else
      assert forall k :: k in hs ==> k == hs[0] || k in hs[1..];
      ShareNamed(t, hs[1..], name)
  }

  /** The share c[1] of the contact c[0]; none when there are fewer than two components. */
  function InShare(t: Tree, c: seq<string>): Option<Handle>
  {
    if |c| < 2 then None
    else match ContactNamed(t.contacts, c[0])
      case None => None
      case Some(u) => ShareNamed(t, u.inshares, c[1])
  }

  // ---------------------------------------------------------------- resolution

  /** The node found, the user of a "user:" path, and the missing last name. */
  datatype Lookup = Lookup(node: Option<Handle>, user: Option<string>, namepart: Option<string>)

  const NOTHING: Lookup := Lookup(None, None, None)

  /**
   * The resolution loop from component l on: "." and empty components are
   * skipped, ".." goes to the parent, any other name to the child of that
   * name. A missing child gives the parent and the name when it is the last
   * component and the name is wanted, and nothing otherwise.
   */
  function Resolve(t: Tree, n: Option<Handle>, c: seq<string>, l: nat, wantName: bool): Lookup
    decreases |c| - l
  {
    if n.None? || l >= |c| then Lookup(n, None, None)
    else if c[l] == "." || c[l] == [] then Resolve(t, n, c, l + 1, wantName)
    else if c[l] == ".." then Resolve(t, Parent(t, n.value), c, l + 1, wantName)
    else match ChildNamed(t, n.value, c[l])
      case None => if wantName && l == |c| - 1 then Lookup(n, None, Some(c[l])) else NOTHING
      case Some(k) => Resolve(t, Some(k), c, l + 1, wantName)
  }

  /** `nodebypath(p, user, namepart)` with cwd as the current folder; wantName says namepart was given. */
  function PathLookup(t: Tree, cwd: Handle, p: string, wantName: bool): Lookup
  {
    if p == [] then NOTHING
    else match SplitPath(p)
      case Malformed => NOTHING
      case Components(c, remote) =>
        if remote then
          if |c| == 2 && c[1] == [] then Lookup(None, Some(c[0]), None)
          else match InShare(t, c)
            case None => NOTHING
            case Some(h) => Resolve(t, Some(h), c, 2, wantName)
        else if |c| > 1 && c[0] == [] then
          if |c| > 2 && c[1] == [] then
            if c[2] == "in" then Resolve(t, t.inbox, c, 3, wantName)
            else if c[2] == "bin" then Resolve(t, t.rubbish, c, 3, wantName)
            else NOTHING
          else Resolve(t, t.root, c, 1, wantName)
        else Resolve(t, Known(t, cwd), c, 0, wantName)
  }

  /** The loop over the contacts, then over the contact's shares. */
  method FindInShare(t: Tree, c: seq<string>) returns (r: Option<Handle>)
    ensures r == InShare(t, c)
  {
    if |c| < 2 {
      return None;
    }
    var i := 0;
    var u: Option<Contact> := None;
    while i < |t.contacts|
      invariant 0 <= i <= |t.contacts|
      invariant ContactNamed(t.contacts, c[0]) == ContactNamed(t.contacts[i..], c[0])
      decreases |t.contacts| - i
    {
      if t.contacts[i].email == c[0] {
        u := Some(t.contacts[i]);
        break;
      }
      assert t.contacts[i..][1..] == t.contacts[i + 1..];
      i := i + 1;
    }
    if u.None? {
      assert t.contacts[i..] == [];
      return None;
    }
    var shares := u.value.inshares;
    var j := 0;
    while j < |shares|
      invariant 0 <= j <= |shares|
      invariant ShareNamed(t, shares, c[1]) == ShareNamed(t, shares[j..], c[1])
      decreases |shares| - j
    {
      if shares[j] in t.nodes && t.nodes[shares[j]].name == c[1] {
        return Some(shares[j]);
      }
      assert shares[j..][1..] == shares[j + 1..];
      j := j + 1;
    }
    assert shares[j..] == [];
    return None;
  }

  /** The resolution loop of nodebypath. */
  method ResolveLoop(t: Tree, n0: Option<Handle>, c: seq<string>, l0: nat, wantName: bool) returns (r: Lookup)
    ensures r == Resolve(t, n0, c, l0, wantName)
  {
    var n, l := n0, l0;
    while n.Some? && l < |c|
      invariant Resolve(t, n, c, l, wantName) == Resolve(t, n0, c, l0, wantName)
      decreases |c| - l
    {
      if c[l] != "." {
        if c[l] == ".." {
          n := Parent(t, n.value);
        } else if |c[l]| > 0 {
          var nn := ChildNamed(t, n.value, c[l]);
          if nn.None? {
            if wantName && l == |c| - 1 {
              return Lookup(n, None, Some(c[l]));
            }
            return NOTHING;
          }
          n := nn;
        }
      }
      l := l + 1;
    }
    return Lookup(n, None, None);
  }

  /** nodebypath: the splitter, the choice of the starting node, and the resolution loop. */
  method NodeByPath(t: Tree, cwd: Handle, p: string, wantName: bool) returns (r: Lookup)
    ensures r == PathLookup(t, cwd, p, wantName)
  {
    if p == [] {
      return NOTHING;
    }
    var split := SplitLoop(p, false);
    if split.Malformed? {
      return NOTHING;
    }
    var c := split.parts;
    if split.remote {
      if |c| == 2 && c[1] == [] {
        return Lookup(None, Some(c[0]), None);
      }
      var share := FindInShare(t, c);
      if share.None? {
        return NOTHING;
      }
      r := ResolveLoop(t, share, c, 2, wantName);
    } else if |c| > 1 && c[0] == [] {
      if |c| > 2 && c[1] == [] {
        if c[2] == "in" {
          r := ResolveLoop(t, t.inbox, c, 3, wantName);
        } else if c[2] == "bin" {
          r := ResolveLoop(t, t.rubbish, c, 3, wantName);
        } else {
          return NOTHING;
        }
      } else {
        r := ResolveLoop(t, t.root, c, 1, wantName);
      }
    } else {
      r := ResolveLoop(t, Known(t, cwd), c, 0, wantName);
    }
  }

  // ---------------------------------------------------------------- properties of resolution

  /** Resolution depends only on the components still to read. */
  lemma {:induction false} ResolveSuffix(t: Tree, n: Option<Handle>, c: seq<string>, l: nat, d: seq<string>, m: nat, w: bool)
    requires l <= |c| && m <= |d| && c[l..] == d[m..]
    ensures Resolve(t, n, c, l, w) == Resolve(t, n, d, m, w)
    decreases |c| - l
  {
    if n.Some? && l < |c| {
      assert c[l] == c[l..][0] == d[m..][0] == d[m];
      assert c[l + 1..] == c[l..][1..] == d[m..][1..] == d[m + 1..];
      var x := c[l];
      if x == "." || x == [] {
        ResolveSuffix(t, n, c, l + 1, d, m + 1, w);
      } else if x == ".." {
        ResolveSuffix(t, Parent(t, n.value), c, l + 1, d, m + 1, w);
      } else if ChildNamed(t, n.value, x).Some? {
        ResolveSuffix(t, ChildNamed(t, n.value, x), c, l + 1, d, m + 1, w);
      }
    }
  }

  lemma ResolveFrom(t: Tree, n: Option<Handle>, c: seq<string>, l: nat, w: bool)
    requires l <= |c|
    ensures Resolve(t, n, c, l, w) == Resolve(t, n, c[l..], 0, w)
  {
    ResolveSuffix(t, n, c, l, c[l..], 0, w);
  }

  /** The components with every "." and empty one removed. */
  function Clean(c: seq<string>): (r: seq<string>)
    ensures forall x :: x in r ==> x != "." && x != []
  {
    if c == [] then []
    else if c[0] == "." || c[0] == [] then Clean(c[1..])
    else [c[0]] + Clean(c[1..])
  }

  /** Without a wanted name, "." and empty components make no difference at all. */
  lemma {:induction false} ResolveClean(t: Tree, n: Option<Handle>, c: seq<string>)
    ensures Resolve(t, n, c, 0, false) == Resolve(t, n, Clean(c), 0, false)
    decreases |c|
  {
    if n.Some? && c != [] {
      var x := c[0];
      if x == "." || x == [] {
        ResolveFrom(t, n, c, 1, false);
        ResolveClean(t, n, c[1..]);
      } else {
        var r := [x] + Clean(c[1..]);
        assert Clean(c) == r && r[0] == x;
        assert r[1..] == Clean(c[1..]);
        var next := if x == ".." then Parent(t, n.value) else ChildNamed(t, n.value, x);
        if x == ".." || next.Some? {
          ResolveFrom(t, next, c, 1, false);
          ResolveFrom(t, next, r, 1, false);
          ResolveClean(t, next, c[1..]);
        }
      }
    }
  }

  /** A name that resolution takes as a child's name. */
  predicate Named(x: string)
  {
    x != [] && x != "." && x != ".."
  }

  /** Following the names child by child leads from node h to node k. */
  predicate Chain(t: Tree, h: Handle, names: seq<string>, k: Handle)
    decreases |names|
  {
    h in t.nodes &&
    if names == [] then k == h
    else match ChildNamed(t, h, names[0])
      case None => false
      case Some(m) => Chain(t, m, names[1..], k)
  }

  /** Names along a chain resolve to its end. */
  lemma {:induction false} ResolveChain(t: Tree, h: Handle, names: seq<string>, k: Handle, w: bool)
    requires Chain(t, h, names, k) && forall i :: 0 <= i < |names| ==> Named(names[i])
    ensures Resolve(t, Some(h), names, 0, w) == Lookup(Some(k), None, None)
    decreases |names|
  {
    if names != [] {
      var m := ChildNamed(t, h, names[0]).value;
      ResolveFrom(t, Some(m), names, 1, w);
      ResolveChain(t, m, names[1..], k, w);
    }
  }

  /**
   * A missing last name gives the node reached and the name when the name is
   * wanted, and nothing otherwise; a missing name before the last gives
   * nothing either way.
   */
  lemma {:induction false} ResolveMissing(t: Tree, h: Handle, names: seq<string>, k: Handle, x: string, rest: seq<string>, w: bool)
    requires Chain(t, h, names, k) && forall i :: 0 <= i < |names| ==> Named(names[i])
    requires Named(x) && ChildNamed(t, k, x).None?
    ensures Resolve(t, Some(h), names + [x] + rest, 0, w) ==
      if w && rest == [] then Lookup(Some(k), None, Some(x)) else NOTHING
    decreases |names|
  {
    var c := names + [x] + rest;
    if names == [] {
      assert c[0] == x;
    } else {
      var m := ChildNamed(t, h, names[0]).value;
      assert c[0] == names[0];
      ResolveFrom(t, Some(m), c, 1, w);
      assert c[1..] == names[1..] + [x] + rest;
      ResolveMissing(t, m, names[1..], k, x, rest, w);
    }
  }

  function Dots(n: nat): (r: seq<string>)
    ensures |r| == n && forall i :: 0 <= i < n ==> r[i] == ".."
  {
    if n == 0 then [] else Dots(n - 1) + [".."]
  }

  /** Going down a chain and up by as many ".." comes back to where it started. */
  lemma {:induction false} ChainThenUp(t: Tree, h: Handle, names: seq<string>, k: Handle, rest: seq<string>, w: bool)
    requires Chain(t, h, names, k) && forall i :: 0 <= i < |names| ==> Named(names[i])
    ensures Resolve(t, Some(h), names + Dots(|names|) + rest, 0, w) == Resolve(t, Some(h), rest, 0, w)
    decreases |names|
  {
    if names != [] {
      var n := |names|;
      var m := ChildNamed(t, h, names[0]).value;
      var c := names + Dots(n) + rest;
      assert Dots(n) == Dots(n - 1) + [".."];
      assert c[0] == names[0];
      assert Named(c[0]) && ChildNamed(t, h, c[0]) == Some(m);
      assert Resolve(t, Some(h), c, 0, w) == Resolve(t, Some(m), c, 1, w);
      ResolveFrom(t, Some(m), c, 1, w);
      var up := [".."] + rest;
      assert c[1..] == names[1..] + Dots(n - 1) + up;
      ChainThenUp(t, m, names[1..], k, up, w);
      assert Parent(t, m) == Some(h);
      assert Resolve(t, Some(m), up, 0, w) == Resolve(t, Some(h), up, 1, w);
      ResolveFrom(t, Some(h), up, 1, w);
      assert up[1..] == rest;
    } else {
      assert names + Dots(0) + rest == rest;
    }
  }

  // ---------------------------------------------------------------- whole paths

  lemma NamesEscapable(names: seq<string>)
    requires forall i :: 0 <= i < |names| ==> Escapable(names[i])
    ensures forall i :: 0 <= i < |[""] + names| ==> Escapable(([""] + names)[i])
  {
    forall i | 0 <= i < |[""] + names| ensures Escapable(([""] + names)[i]) {
      if i > 0 {
        assert ([""] + names)[i] == names[i - 1];
      }
    }
  }

  /** "/a/b": resolution starts at the root. */
  lemma AbsoluteLookup(t: Tree, cwd: Handle, names: seq<string>, w: bool)
    requires |names| > 0 && forall i :: 0 <= i < |names| ==> Escapable(names[i]) && Named(names[i])
    ensures PathLookup(t, cwd, "/" + JoinEscaped(names), w) == Resolve(t, t.root, names, 0, w)
  {
    var c := [""] + names;
    JoinEscapedCons("", names);
    assert Escape("") == "";
    assert JoinEscaped(c) == "/" + JoinEscaped(names);
    NamesEscapable(names);
    SplitJoinEscaped(c);
    assert c[1] == names[0];
    ResolveFrom(t, t.root, c, 1, w);
    assert c[1..] == names;
  }

  /** "a/b": resolution starts at the current folder. */
  lemma RelativeLookup(t: Tree, cwd: Handle, names: seq<string>, w: bool)
    requires |names| > 0 && forall i :: 0 <= i < |names| ==> Escapable(names[i]) && Named(names[i])
    ensures PathLookup(t, cwd, JoinEscaped(names), w) == Resolve(t, Known(t, cwd), names, 0, w)
  {
    SplitJoinEscaped(names);
    assert JoinEscaped(names) != [] by {
      if |names| == 1 {
        assert Escape(names[0]) != [] by { assert names[0] != []; }
      }
    }
  }

  /** "//in/a", "//bin/a" start at the inbox and the rubbish; "//x/a" for any other x finds nothing. */
  lemma SpecialRootLookup(t: Tree, cwd: Handle, top: string, names: seq<string>, w: bool)
    requires Escapable(top) && Named(top)
    requires forall i :: 0 <= i < |names| ==> Escapable(names[i])
    ensures PathLookup(t, cwd, JoinEscaped(["", "", top] + names), w) ==
      if top == "in" then Resolve(t, t.inbox, names, 0, w)
      else if top == "bin" then Resolve(t, t.rubbish, names, 0, w)
      else NOTHING
  {
    var c := ["", "", top] + names;
    forall i | 0 <= i < |c| ensures Escapable(c[i]) {
      if i >= 3 {
        assert c[i] == names[i - 3];
      }
    }
    SplitJoinEscaped(c);
    assert JoinEscaped(c) != [] by {
      JoinEscapedCons("", c[1..]);
      assert c == [""] + c[1..];
    }
    if top == "in" {
      ResolveFrom(t, t.inbox, c, 3, w);
    } else if top == "bin" {
      ResolveFrom(t, t.rubbish, c, 3, w);
    }
    assert c[3..] == names;
  }

  /** "user:" names the user's inbox target: the user is recorded and no node is returned. */
  lemma UserLookup(t: Tree, cwd: Handle, user: string, w: bool)
    requires Escapable(user)
    ensures PathLookup(t, cwd, Escape(user) + ":", w) == Lookup(None, Some(user), None)
  {
    forall k | 0 <= k < |[""]| ensures Escapable([""][k]) {
    }
    SplitRemote(user, [""]);
    assert JoinEscaped([""]) == [];
    assert Escape(user) + ":" + [] == Escape(user) + ":";
  }

  /** "user:share/a": resolution starts at the share of that name from that user. */
  lemma ShareLookup(t: Tree, cwd: Handle, user: string, share: string, names: seq<string>, w: bool)
    requires Escapable(user) && Escapable(share) && share != []
    requires forall i :: 0 <= i < |names| ==> Escapable(names[i])
    ensures var c := [user, share] + names;
      PathLookup(t, cwd, Escape(user) + ":" + JoinEscaped([share] + names), w) ==
        match InShare(t, c)
        case None => NOTHING
        case Some(h) => Resolve(t, Some(h), names, 0, w)
  {
    var cs := [share] + names;
    forall i | 0 <= i < |cs| ensures Escapable(cs[i]) {
      if i > 0 {
        assert cs[i] == names[i - 1];
      }
    }
    SplitRemote(user, cs);
    var c := [user] + cs;
    assert c == [user, share] + names;
    assert c[1] == share;
    if InShare(t, c).Some? {
      ResolveFrom(t, InShare(t, c), c, 2, w);
      assert c[2..] == names;
    }
  }

  // ---------------------------------------------------------------- makedir

  /**
   * `createFolder(name, parent)` followed by the wait for its result: a new
   * folder, last in the order, when parent is a node other than a file;
   * otherwise the request fails and nothing changes.
   */
  function CreateFolder(t: Tree, parent: Handle, name: string): Tree
  {
    if parent in t.nodes && t.nodes[parent].kind != File then
      t.(nodes := t.nodes[t.next := Node(name, Folder, Some(parent))], order := t.order + [t.next], next := t.next + 1)
    else t
  }

  /** The tree after one component, the folder reached, and MCMD_OK or the code that ends makedir. */
  datatype StepOutcome = StepOutcome(tree: Tree, cur: Handle, code: int)

  datatype MkOutcome = MkOutcome(tree: Tree, code: int)

  /** One pass of makedir's loop on the component name; last says no '/' follows it. */
  function MkStep(t: Tree, cur: Handle, name: string, last: bool, recursive: bool): StepOutcome
  {
    if name == [] then StepOutcome(t, cur, MCMD_OK)
    else
      var existing := ChildNamed(t, cur, name);
      if existing.Some? then
        if last then StepOutcome(t, existing.value, MCMD_INVALIDSTATE) else StepOutcome(t, existing.value, MCMD_OK)
      else if !recursive && !last then StepOutcome(t, cur, MCMD_EARGS)
      else
        var t1 := CreateFolder(t, cur, name);
        var created := ChildNamed(t1, cur, name);
        if created.None? then StepOutcome(t1, cur, MCMD_INVALIDSTATE)
        else StepOutcome(t1, created.value, MCMD_OK)
  }

  /** Makedir's loop over rest from the folder cur. */
  function MkDir(t: Tree, cur: Handle, rest: string, recursive: bool): MkOutcome
    decreases |rest|
  {
    if rest == [] then MkOutcome(t, MCMD_OK)
    else
      var pos := FindChar(rest, '/');
      var possep := if pos.None? then |rest| else pos.value;
      var s := MkStep(t, cur, rest[..possep], pos.None?, recursive);
      if s.code != MCMD_OK then MkOutcome(s.tree, s.code)
      else if pos.None? then MkOutcome(s.tree, MCMD_OK)
      else MkDir(s.tree, s.cur, rest[possep + 1..], recursive)
  }

  /** `makedir(path, recursive, parent)`: from parent, or from the current folder when none is given. */
  function MakeDirOf(t: Tree, cwd: Handle, parent: Option<Handle>, path: string, recursive: bool): MkOutcome
  {
    var start := if parent.Some? then parent else Known(t, cwd);
    if start.None? then MkOutcome(t, MCMD_EARGS)
    else MkDir(t, start.value, path, recursive)
  }

  method MakeDir(t: Tree, cwd: Handle, parent: Option<Handle>, path: string, recursive: bool) returns (u: Tree, code: int)
    ensures MkOutcome(u, code) == MakeDirOf(t, cwd, parent, path, recursive)
  {
    var start := if parent.Some? then parent else Known(t, cwd);
    if start.None? {
      return t, MCMD_EARGS;
    }
    var cur := start.value;
    var rest := path;
    u := t;
    while |rest| > 0
      invariant MkDir(u, cur, rest, recursive) == MakeDirOf(t, cwd, parent, path, recursive)
      decreases |rest|
    {
      var pos := FindChar(rest, '/');
      var lastleave := pos.None?;
      var possep := if lastleave then |rest| else pos.value;
      var name := rest[..possep];
      ghost var step := MkStep(u, cur, name, lastleave, recursive);
      if |name| > 0 {
        var existing := ChildNamed(u, cur, name);
        if existing.None? {
          if !recursive && !lastleave {
            return u, MCMD_EARGS;
          }
          u := CreateFolder(u, cur, name);
          var created := ChildNamed(u, cur, name);
          if created.None? {
            return u, MCMD_INVALIDSTATE;
          }
          cur := created.value;
        } else {
          cur := existing.value;
        }
        if lastleave && existing.Some? {
          return u, MCMD_INVALIDSTATE;
        }
      }
      assert step.tree == u && step.cur == cur && step.code == MCMD_OK;
      if !lastleave {
        rest := rest[possep + 1..];
      } else {
        return u, MCMD_OK;
      }
    }
    return u, MCMD_OK;
  }

  // ---------------------------------------------------------------- properties of makedir

  /** u keeps every node of t, lists t's order first, and keeps the roots and contacts. */
  predicate Extends(t: Tree, u: Tree)
  {
    |t.order| <= |u.order| && u.order[..|t.order|] == t.order &&
    (forall k :: k in t.nodes ==> k in u.nodes && u.nodes[k] == t.nodes[k]) &&
    u.root == t.root && u.inbox == t.inbox && u.rubbish == t.rubbish && u.contacts == t.contacts &&
    t.next <= u.next
  }

  lemma ExtendsTrans(t: Tree, u: Tree, v: Tree)
    requires Extends(t, u) && Extends(u, v)
    ensures Extends(t, v)
  {
    assert v.order[..|t.order|] == v.order[..|u.order|][..|t.order|];
  }

  predicate SameOn(t: Tree, u: Tree, hs: seq<Handle>)
  {
    forall k :: k in hs ==> k in t.nodes && k in u.nodes && u.nodes[k] == t.nodes[k]
  }

  lemma {:induction false} FirstChildPrefix(t: Tree, u: Tree, hs: seq<Handle>, extra: seq<Handle>, h: Handle, x: string)
    requires SameOn(t, u, hs) && FirstChild(t, hs, h, x).Some?
    ensures FirstChild(u, hs + extra, h, x) == FirstChild(t, hs, h, x)
    decreases |hs|
  {
    assert (hs + extra)[0] == hs[0] && (hs + extra)[1..] == hs[1..] + extra;
    if !IsChild(t, hs[0], h, x) {
      assert SameOn(t, u, hs[1..]) by {
        forall k | k in hs[1..] ensures k in hs {
        }
      }
      FirstChildPrefix(t, u, hs[1..], extra, h, x);
    }
  }

  lemma {:induction false} FirstChildAppendNew(t: Tree, u: Tree, hs: seq<Handle>, n: Handle, h: Handle, x: string)
    requires SameOn(t, u, hs) && FirstChild(t, hs, h, x).None? && IsChild(u, n, h, x)
    ensures FirstChild(u, hs + [n], h, x) == Some(n)
    decreases |hs|
  {
    if hs == [] {
      assert [] + [n] == [n];
    } else {
      assert (hs + [n])[0] == hs[0] && (hs + [n])[1..] == hs[1..] + [n];
      assert SameOn(t, u, hs[1..]) by {
        forall k | k in hs[1..] ensures k in hs {
        }
      }
      assert FirstChild(t, hs[1..], h, x).None? by {
        forall k | k in hs[1..] ensures !IsChild(t, k, h, x) {
          assert k in hs;
        }
      }
      FirstChildAppendNew(t, u, hs[1..], n, h, x);
    }
  }

  /** A child found in t is still the one found in a tree that extends t. */
  lemma ChildExtends(t: Tree, u: Tree, h: Handle, x: string)
    requires WellFormed(t) && Extends(t, u) && ChildNamed(t, h, x).Some?
    ensures ChildNamed(u, h, x) == ChildNamed(t, h, x)
  {
    var extra := u.order[|t.order|..];
    assert u.order == t.order + extra by {
      assert u.order == u.order[..|t.order|] + extra;
    }
    assert SameOn(t, u, t.order) by {
      forall k | k in t.order ensures k in t.nodes {
        var i :| 0 <= i < |t.order| && t.order[i] == k;
      }
    }
    FirstChildPrefix(t, u, t.order, extra, h, x);
  }

  /** A successful createFolder adds a well-formed extension whose child of that name is the new folder. */
  lemma CreateFolderAdds(t: Tree, parent: Handle, name: string)
    requires WellFormed(t)
    ensures var u := CreateFolder(t, parent, name);
      WellFormed(u) && Extends(t, u) &&
      (parent in t.nodes && t.nodes[parent].kind != File && ChildNamed(t, parent, name).None? ==>
        ChildNamed(u, parent, name) == Some(t.next))
  {
    var u := CreateFolder(t, parent, name);
    if parent in t.nodes && t.nodes[parent].kind != File {
      assert t.next !in t.nodes;
      assert u.order[..|t.order|] == t.order;
      assert forall i :: 0 <= i < |u.order| ==> u.order[i] in u.nodes by {
        forall i | 0 <= i < |u.order| ensures u.order[i] in u.nodes {
          if i < |t.order| {
            assert u.order[i] == t.order[i];
          }
        }
      }
      if ChildNamed(t, parent, name).None? {
        assert SameOn(t, u, t.order) by {
          forall k | k in t.order ensures k in t.nodes {
            var i :| 0 <= i < |t.order| && t.order[i] == k;
          }
        }
        FirstChildAppendNew(t, u, t.order, t.next, parent, name);
      }
    }
  }

  lemma MkStepExtends(t: Tree, cur: Handle, name: string, last: bool, recursive: bool)
    requires WellFormed(t)
    ensures var s := MkStep(t, cur, name, last, recursive);
      WellFormed(s.tree) && Extends(t, s.tree) &&
      (s.code == MCMD_OK && name != [] ==> ChildNamed(s.tree, cur, name) == Some(s.cur))
  {
    CreateFolderAdds(t, cur, name);
  }

  /** Makedir only ever adds folders: the result is a well-formed extension of the tree. */
  lemma {:induction false} MkDirExtends(t: Tree, cur: Handle, rest: string, recursive: bool)
    requires WellFormed(t)
    ensures var r := MkDir(t, cur, rest, recursive); WellFormed(r.tree) && Extends(t, r.tree)
    decreases |rest|
  {
    if rest == [] {
      assert t.order[..|t.order|] == t.order;
    } else {
      var pos := FindChar(rest, '/');
      var possep := if pos.None? then |rest| else pos.value;
      var s := MkStep(t, cur, rest[..possep], pos.None?, recursive);
      MkStepExtends(t, cur, rest[..possep], pos.None?, recursive);
      if s.code != MCMD_OK || pos.None? {
        assert MkDir(t, cur, rest, recursive).tree == s.tree;
      } else {
        var tail := rest[possep + 1..];
        assert MkDir(t, cur, rest, recursive) == MkDir(s.tree, s.cur, tail, recursive);
        MkDirExtends(s.tree, s.cur, tail, recursive);
        ExtendsTrans(t, s.tree, MkDir(s.tree, s.cur, tail, recursive).tree);
      }
    }
  }

  lemma FirstSlash(x: string, rest: string)
    requires '/' !in x
    ensures FindChar(x + "/" + rest, '/') == Some(|x|)
    ensures FindChar(x, '/') == None
  {
    var s := x + "/" + rest;
    assert s[|x|] == '/';
    assert forall k :: 0 <= k < |x| ==> s[k] == x[k];
  }

  /** Without -p, a missing folder before the last component ends makedir with MCMD_EARGS and changes nothing. */
  lemma MkDirMissingParent(t: Tree, cur: Handle, x: string, rest: string)
    requires x != [] && '/' !in x && ChildNamed(t, cur, x).None?
    ensures MkDir(t, cur, x + "/" + rest, false) == MkOutcome(t, MCMD_EARGS)
  {
    FirstSlash(x, rest);
    var s := x + "/" + rest;
    assert s[..|x|] == x;
  }

  /** An existing folder as the last component ends makedir with MCMD_INVALIDSTATE and changes nothing. */
  lemma MkDirExisting(t: Tree, cur: Handle, x: string, recursive: bool)
    requires x != [] && '/' !in x && ChildNamed(t, cur, x).Some?
    ensures MkDir(t, cur, x, recursive) == MkOutcome(t, MCMD_INVALIDSTATE)
  {
    FirstSlash(x, []);
    assert x[..|x|] == x;
  }

  /** The names joined by '/', as makedir reads them. */
  function JoinNames(names: seq<string>): string
    requires |names| > 0
  {
    if |names| == 1 then names[0] else names[0] + "/" + JoinNames(names[1..])
  }

  /** A tree that extends another keeps its chains. */
  lemma {:induction false} ChainExtends(t: Tree, u: Tree, h: Handle, names: seq<string>, k: Handle)
    requires WellFormed(t) && Extends(t, u) && Chain(t, h, names, k)
    ensures Chain(u, h, names, k)
    decreases |names|
  {
    if names != [] {
      ChildExtends(t, u, h, names[0]);
      ChainExtends(t, u, ChildNamed(t, h, names[0]).value, names[1..], k);
    }
  }

  /** When makedir succeeds, every component exists: the names lead from the start to a folder. */
  lemma {:induction false} MkDirCreates(t: Tree, cur: Handle, names: seq<string>, recursive: bool)
    requires WellFormed(t) && cur in t.nodes
    requires |names| > 0 && forall i :: 0 <= i < |names| ==> names[i] != [] && '/' !in names[i]
    ensures var r := MkDir(t, cur, JoinNames(names), recursive);
      r.code == MCMD_OK ==> exists k :: Chain(r.tree, cur, names, k)
    decreases |names|
  {
    var x := names[0];
    var rest := JoinNames(names);
    var last := |names| == 1;
    if last {
      FirstSlash(x, []);
      assert rest[..|x|] == x;
    } else {
      FirstSlash(x, JoinNames(names[1..]));
      assert rest[..|x|] == x;
      assert rest[|x| + 1..] == JoinNames(names[1..]);
    }
    var s := MkStep(t, cur, x, last, recursive);
    MkStepExtends(t, cur, x, last, recursive);
    var r := MkDir(t, cur, rest, recursive);
    if r.code == MCMD_OK {
      assert s.code == MCMD_OK;
      assert ChildNamed(s.tree, cur, x) == Some(s.cur);
      if last {
        assert Chain(s.tree, s.cur, [], s.cur);
        assert Chain(s.tree, cur, names, s.cur);
      } else {
        assert names[1..] != [] && forall i :: 0 <= i < |names[1..]| ==> names[1..][i] != [] && '/' !in names[1..][i];
        MkDirCreates(s.tree, s.cur, names[1..], recursive);
        assert r == MkDir(s.tree, s.cur, JoinNames(names[1..]), recursive);
        var e :| Chain(r.tree, s.cur, names[1..], e);
        MkDirExtends(s.tree, s.cur, JoinNames(names[1..]), recursive);
        ChildExtends(s.tree, r.tree, cur, x);
        assert Chain(r.tree, cur, names, e);
      }
    }
  }

  /** A name of plain characters only: no separator, escape, NUL or multibyte lead. */
  predicate Literal(x: string)
  {
    forall k :: 0 <= k < |x| ==> Plain(x[k])
  }

  lemma {:induction false} LiteralEscape(x: string)
    requires Literal(x)
    ensures Escape(x) == x && Escapable(x) && '/' !in x
    decreases |x|
  {
    if x != [] {
      assert Literal(x[1..]) by {
        forall k | 0 <= k < |x[1..]| ensures Plain(x[1..][k]) {
          assert x[1..][k] == x[k + 1];
        }
      }
      LiteralEscape(x[1..]);
      assert x == [x[0]] + x[1..];
      assert Plain(x[0]);
    }
  }

  lemma {:induction false} LiteralJoin(names: seq<string>)
    requires |names| > 0 && forall i :: 0 <= i < |names| ==> Literal(names[i])
    ensures JoinEscaped(names) == JoinNames(names)
    decreases |names|
  {
    LiteralEscape(names[0]);
    if |names| > 1 {
      LiteralJoin(names[1..]);
    }
  }

  /**
   * After a successful makedir of "a/b/c" from the current folder, nodebypath
   * finds "a/b/c" from that folder.
   */
  lemma MakeDirThenLookup(t: Tree, cwd: Handle, names: seq<string>, recursive: bool)
    requires WellFormed(t) && cwd in t.nodes
    requires |names| > 0 && forall i :: 0 <= i < |names| ==> Literal(names[i]) && Named(names[i])
    ensures var r := MakeDirOf(t, cwd, None, JoinNames(names), recursive);
      r.code == MCMD_OK ==> PathLookup(r.tree, cwd, JoinNames(names), false).node.Some?
  {
    forall i | 0 <= i < |names| ensures Escapable(names[i]) && '/' !in names[i] {
      LiteralEscape(names[i]);
    }
    var r := MakeDirOf(t, cwd, None, JoinNames(names), recursive);
    MkDirCreates(t, cwd, names, recursive);
    MkDirExtends(t, cwd, JoinNames(names), recursive);
    if r.code == MCMD_OK {
      var k :| Chain(r.tree, cwd, names, k);
      LiteralJoin(names);
      RelativeLookup(r.tree, cwd, names, false);
      ResolveChain(r.tree, cwd, names, k, false);
    }
  }
}
