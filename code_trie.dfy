/**
 * The binary code trie: a dot takes the left edge, a dash the right edge,
 * and a node's value is the character whose code is the path to it (or
 * empty). `Nil` stands for a null child pointer.
 */
module CodeTrie {
  import opened Strings

  datatype Tree = Nil | Node(value: string, left: Tree, right: Tree)

  /** A freshly constructed `TreeNode`: the given value and no children. */
  function NewNode(val: string): (n: Tree)
    ensures n.Node? && n.value == val && n.left == Nil && n.right == Nil
  {
    Node(val, Nil, Nil)
  }

  /** The child the walk moves to, allocating an empty node if it is null. */
  function OrNew(t: Tree): (n: Tree)
    ensures n.Node?
    ensures t.Node? ==> n == t
  {
    if t.Nil? then NewNode("") else t
  }

  predicate IsDotDashPath(p: string)
  {
    forall i :: 0 <= i < |p| ==> p[i] == '.' || p[i] == '-'
  }

  /** The edges a code's walk takes: its dots and dashes, in order. */
  function Path(code: string): (p: string)
    ensures IsDotDashPath(p)
    ensures |p| <= |code|
  {
    if code == [] then []
    else if code[0] == '.' || code[0] == '-' then [code[0]] + Path(code[1..])
    else Path(code[1..])
  }

  /**
   * One pass of `buildMorseTree`'s inner loop: walk `code` down from `n`,
   * creating missing children on the way and skipping symbols that are
   * neither dot nor dash, then store `v` in the node reached.
   */
  function Insert(n: Tree, code: string, v: string): (r: Tree)
    requires n.Node?
    ensures r.Node?
    decreases |code|
  {
    if code == [] then Node(v, n.left, n.right)
    else if code[0] == '.' then Node(n.value, Insert(OrNew(n.left), code[1..], v), n.right)
    else if code[0] == '-' then Node(n.value, n.left, Insert(OrNew(n.right), code[1..], v))
    else Insert(n, code[1..], v)
  }

  /** The node that following `code` from `t` arrives at, or `Nil`. */
  function Reach(t: Tree, code: string): Tree
    decreases |code|
  {
    if t.Nil? || code == [] then t
    else if code[0] == '.' then Reach(t.left, code[1..])
    else if code[0] == '-' then Reach(t.right, code[1..])
    else Reach(t, code[1..])
  }

  /** The value of the node `code` leads to; empty if there is none. */
  function ValueAt(t: Tree, code: string): string
  {
    var n := Reach(t, code);
    if n.Node? then n.value else ""
  }

  /** The non-empty node values in pre-order: node, dot subtree, dash subtree. */
  function Labels(t: Tree): (r: seq<string>)
    ensures forall s :: s in r ==> s != ""
  {
    if t.Nil? then []
    else (if t.value != "" then [t.value] else []) + Labels(t.left) + Labels(t.right)
  }

  /** A node's spaced listing: its own value (if any), then each subtree's listing. */
  lemma SpacedLabels(t: Tree)
    requires t.Node?
    ensures Spaced(Labels(t)) ==
      (if t.value != "" then t.value + " " else "") + Spaced(Labels(t.left)) + Spaced(Labels(t.right))
  {
    var top: seq<string> := if t.value != "" then [t.value] else [];
    SpacedAppend(top, Labels(t.left));
    SpacedAppend(top + Labels(t.left), Labels(t.right));
    assert Spaced(top) == if t.value != "" then t.value + " " else "";
  }

  /** A node with a value lists it first. */
  lemma ListingHead(t: Tree)
    requires t.Node? && t.value != ""
    ensures Labels(t) != [] && Labels(t)[0] == t.value
  {
  }

  /** Number of levels: a lone node has height 1. */
  function Height(t: Tree): nat
  {
    if t.Nil? then 0
    else 1 + if Height(t.left) < Height(t.right) then Height(t.right) else Height(t.left)
  }

  lemma {:induction false} PathOfPath(p: string)
    requires IsDotDashPath(p)
    ensures Path(p) == p
  {
    if p != [] {
      PathOfPath(p[1..]);
      assert p == [p[0]] + p[1..];
    }
  }

  /** Walking a code is walking its dot/dash path. */
  lemma {:induction false} ReachByPath(t: Tree, code: string)
    ensures Reach(t, code) == Reach(t, Path(code))
    decreases |code|
  {
    if t.Nil? {
      if Path(code) != [] { }
    } else if code != [] {
      ReachByPath(if code[0] == '.' then t.left else if code[0] == '-' then t.right else t, code[1..]);
      if code[0] == '.' || code[0] == '-' {
        assert ([code[0]] + Path(code[1..]))[1..] == Path(code[1..]);
      }
    }
  }

  /** Inserting along a code is inserting along its dot/dash path. */
  lemma {:induction false} InsertByPath(n: Tree, code: string, v: string)
    requires n.Node?
    ensures Insert(n, code, v) == Insert(n, Path(code), v)
    decreases |code|
  {
    if code != [] {
      if code[0] == '.' {
        InsertByPath(OrNew(n.left), code[1..], v);
        assert ([code[0]] + Path(code[1..]))[1..] == Path(code[1..]);
      } else if code[0] == '-' {
        InsertByPath(OrNew(n.right), code[1..], v);
        assert ([code[0]] + Path(code[1..]))[1..] == Path(code[1..]);
      } else {
        InsertByPath(n, code[1..], v);
      }
    }
  }

  /** An allocated empty child holds no value anywhere below it. */
  lemma OrNewValueAt(t: Tree, q: string)
    ensures ValueAt(OrNew(t), q) == ValueAt(t, q)
  {
    if t.Nil? {
      ReachByPath(NewNode(""), q);
      if Path(q) != [] {
        assert Reach(NewNode(""), Path(q)) == Reach(Nil, Path(q)[1..]);
      }
    }
  }

  lemma {:induction false} InsertValueAtPath(n: Tree, p: string, v: string, w: string)
    requires n.Node? && IsDotDashPath(p) && IsDotDashPath(w)
    ensures ValueAt(Insert(n, p, v), w) == if w == p then v else ValueAt(n, w)
    decreases |p|
  {
    if p != [] && w != [] && p[0] == w[0] {
      var child := if p[0] == '.' then n.left else n.right;
      InsertValueAtPath(OrNew(child), p[1..], v, w[1..]);
      OrNewValueAt(child, w[1..]);
      assert w == p <==> w[1..] == p[1..] by {
        assert w == [w[0]] + w[1..] && p == [p[0]] + p[1..];
      }
    }
  }

  /**
   * After inserting `v` along `code`, every code with the same path leads
   * to `v`, and every other code leads to what it led to before.
   */
  lemma InsertValueAt(n: Tree, code: string, v: string, q: string)
    requires n.Node?
    ensures ValueAt(Insert(n, code, v), q) == if Path(q) == Path(code) then v else ValueAt(n, q)
  {
    InsertByPath(n, code, v);
    ReachByPath(Insert(n, Path(code), v), q);
    ReachByPath(n, q);
    InsertValueAtPath(n, Path(code), v, Path(q));
  }

  lemma {:induction false} InsertCommutePath(n: Tree, p: string, a: string, q: string, b: string)
    requires n.Node? && IsDotDashPath(p) && IsDotDashPath(q) && p != q
    ensures Insert(Insert(n, p, a), q, b) == Insert(Insert(n, q, b), p, a)
    decreases |p|
  {
    if p != [] && q != [] && p[0] == q[0] {
      var child := if p[0] == '.' then n.left else n.right;
      assert p[1..] != q[1..] by {
        assert p == [p[0]] + p[1..] && q == [q[0]] + q[1..];
      }
      InsertCommutePath(OrNew(child), p[1..], a, q[1..], b);
    }
  }

  /** Insertions along different paths can be done in either order. */
  lemma InsertCommute(n: Tree, c: string, a: string, d: string, b: string)
    requires n.Node? && Path(c) != Path(d)
    ensures Insert(Insert(n, c, a), d, b) == Insert(Insert(n, d, b), c, a)
  {
    InsertByPath(n, c, a);
    InsertByPath(n, d, b);
    InsertByPath(Insert(n, c, a), d, b);
    InsertByPath(Insert(n, d, b), c, a);
    InsertByPath(Insert(n, Path(c), a), d, b);
    InsertByPath(Insert(n, Path(d), b), c, a);
    InsertCommutePath(n, Path(c), a, Path(d), b);
  }

  /** Empty values are not listed; a non-empty one is listed once. */
  function Bag(s: string): multiset<string>
  {
    if s == "" then multiset{} else multiset{s}
  }

  /** The non-empty node values, counted with multiplicity. */
  function LabelBag(t: Tree): multiset<string>
  {
    if t.Nil? then multiset{} else Bag(t.value) + LabelBag(t.left) + LabelBag(t.right)
  }

  lemma {:induction false} LabelsBag(t: Tree)
    ensures multiset(Labels(t)) == LabelBag(t)
  {
    if t.Node? {
      LabelsBag(t.left);
      LabelsBag(t.right);
      var top: seq<string> := if t.value != "" then [t.value] else [];
      assert Labels(t) == top + Labels(t.left) + Labels(t.right);
      assert multiset(top) == Bag(t.value);
    }
  }

  lemma {:induction false} InsertBagPath(n: Tree, p: string, v: string)
    requires n.Node? && IsDotDashPath(p)
    ensures LabelBag(Insert(n, p, v)) + Bag(ValueAt(n, p)) == LabelBag(n) + Bag(v)
    decreases |p|
  {
    if p == [] {
      assert Insert(n, p, v) == Node(v, n.left, n.right);
      assert ValueAt(n, p) == n.value;
    } else {
      var child := if p[0] == '.' then n.left else n.right;
      InsertBagPath(OrNew(child), p[1..], v);
      InsertBagLift(n, p, v);
    }
  }

  /** One step of an insertion: the walk moves into the child its first edge names. */
  lemma InsertStep(n: Tree, p: string, v: string)
    requires n.Node? && IsDotDashPath(p) && p != []
    ensures p[0] == '.' ==> Insert(n, p, v) == Node(n.value, Insert(OrNew(n.left), p[1..], v), n.right)
    ensures p[0] == '-' ==> Insert(n, p, v) == Node(n.value, n.left, Insert(OrNew(n.right), p[1..], v))
    ensures ValueAt(n, p) == ValueAt(if p[0] == '.' then n.left else n.right, p[1..])
  {
  }

  /** The bag identity one level down gives it at the node itself. */
  lemma InsertBagLift(n: Tree, p: string, v: string)
    requires n.Node? && IsDotDashPath(p) && p != []
    requires var child := if p[0] == '.' then n.left else n.right;
      LabelBag(Insert(OrNew(child), p[1..], v)) + Bag(ValueAt(OrNew(child), p[1..])) == LabelBag(OrNew(child)) + Bag(v)
    ensures LabelBag(Insert(n, p, v)) + Bag(ValueAt(n, p)) == LabelBag(n) + Bag(v)
  {
    var child := if p[0] == '.' then n.left else n.right;
    var c := Insert(OrNew(child), p[1..], v);
    InsertStep(n, p, v);
    OrNewValueAt(child, p[1..]);
    assert LabelBag(OrNew(child)) == LabelBag(child);
    var lost := Bag(ValueAt(n, p));
    assert LabelBag(c) + lost == LabelBag(child) + Bag(v);
    if p[0] == '.' {
      BagStep(Bag(n.value), LabelBag(c), LabelBag(n.left), LabelBag(n.right), lost, Bag(v));
    } else {
      BagStep(Bag(n.value), LabelBag(c), LabelBag(n.right), LabelBag(n.left), lost, Bag(v));
    }
  }

  /** Replacing one subtree's bag inside a node's bag, in either position. */
  lemma BagStep(top: multiset<string>, after: multiset<string>, before: multiset<string>,
                other: multiset<string>, lost: multiset<string>, gained: multiset<string>)
    requires after + lost == before + gained
    ensures top + after + other + lost == top + before + other + gained
    ensures top + other + after + lost == top + other + before + gained
  {
    assert top + after + other + lost == top + other + (after + lost);
    assert top + other + after + lost == top + other + (after + lost);
    assert top + before + other + gained == top + other + (before + gained);
  }

  lemma {:induction false} InsertHeight(n: Tree, code: string, v: string, d: nat)
    requires n.Node? && Height(n) <= d + 1 && |Path(code)| <= d
    ensures Height(Insert(n, code, v)) <= d + 1
    decreases |code|
  {
    if code != [] {
      var p := Path(code);
      if code[0] == '.' || code[0] == '-' {
        assert p == [code[0]] + Path(code[1..]);
        var child := if code[0] == '.' then n.left else n.right;
        assert Height(child) <= d;
        if d > 0 {
          InsertHeight(OrNew(child), code[1..], v, d - 1);
        }
      } else {
        InsertHeight(n, code[1..], v, d);
      }
    }
  }

  /** No two keys' codes take the same walk through the trie. */
  predicate DistinctPaths(m: map<char, string>)
  {
    forall a, b :: a in m && b in m && a != b ==> Path(m[a]) != Path(m[b])
  }

  /**
   * The trie `buildMorseTree` leaves behind after visiting `keys`: a fresh
   * empty root with each key inserted along its code.
   */
  ghost function InsertKeys(m: map<char, string>, keys: set<char>): (t: Tree)
    requires keys <= m.Keys
    ensures t.Node?
    decreases keys
  {
    if keys == {} then NewNode("")
    else
      var k :| k in keys;
      Insert(InsertKeys(m, keys - {k}), m[k], [k])
  }

  /**
   * With distinct paths the visiting order does not matter: any key may be
   * taken as the one inserted last.
   */
  lemma {:induction false} InsertKeysLast(m: map<char, string>, keys: set<char>, j: char)
    requires keys <= m.Keys && j in keys && DistinctPaths(m)
    ensures InsertKeys(m, keys) == Insert(InsertKeys(m, keys - {j}), m[j], [j])
    decreases keys
  {
    var k :| k in keys && InsertKeys(m, keys) == Insert(InsertKeys(m, keys - {k}), m[k], [k]);
    if k != j {
      var rest := keys - {k} - {j};
      assert keys - {k} - {j} == keys - {j} - {k};
      InsertKeysLast(m, keys - {k}, j);
      InsertKeysLast(m, keys - {j}, k);
      InsertCommute(InsertKeys(m, rest), m[j], [j], m[k], [k]);
    }
  }

  /**
   * Following a visited key's code reaches a node holding that key; a code
   * whose path no visited key shares leads to no value.
   */
  lemma {:induction false} InsertKeysValueAt(m: map<char, string>, keys: set<char>)
    requires keys <= m.Keys && DistinctPaths(m)
    ensures forall c :: c in keys ==> ValueAt(InsertKeys(m, keys), m[c]) == [c]
    ensures forall q :: (forall c :: c in keys ==> Path(m[c]) != Path(q)) ==> ValueAt(InsertKeys(m, keys), q) == ""
    decreases keys
  {
    if keys == {} {
      forall q
        ensures ValueAt(NewNode(""), q) == ""
      {
        OrNewValueAt(Nil, q);
      }
    } else {
      var k :| k in keys && InsertKeys(m, keys) == Insert(InsertKeys(m, keys - {k}), m[k], [k]);
      InsertKeysValueAt(m, keys - {k});
      forall q
        ensures ValueAt(InsertKeys(m, keys), q) ==
          if Path(q) == Path(m[k]) then [k] else ValueAt(InsertKeys(m, keys - {k}), q)
      {
        InsertValueAt(InsertKeys(m, keys - {k}), m[k], [k], q);
      }
    }
  }

  /** The one-character strings of the keys, each once. */
  function KeyStrings(keys: set<char>): multiset<string>
  {
    multiset(set c | c in keys :: [c])
  }

  lemma KeyStringsStep(keys: set<char>, k: char)
    requires k in keys
    ensures KeyStrings(keys) == KeyStrings(keys - {k}) + multiset{[k]}
  {
    var s := set c | c in keys - {k} :: [c];
    assert (set c | c in keys :: [c]) == s + {[k]};
    assert [k] !in s;
  }

  lemma {:induction false} KeyStringsCard(keys: set<char>)
    ensures |KeyStrings(keys)| == |keys|
    decreases keys
  {
    if keys != {} {
      var k :| k in keys;
      KeyStringsStep(keys, k);
      KeyStringsCard(keys - {k});
    }
  }

  lemma {:induction false} InsertKeysBag(m: map<char, string>, keys: set<char>)
    requires keys <= m.Keys && DistinctPaths(m)
    ensures LabelBag(InsertKeys(m, keys)) == KeyStrings(keys)
    decreases keys
  {
    if keys == {} {
      assert (set c | c in keys :: [c]) == {};
    } else {
      var k :| k in keys && InsertKeys(m, keys) == Insert(InsertKeys(m, keys - {k}), m[k], [k]);
      var before := InsertKeys(m, keys - {k});
      InsertKeysBag(m, keys - {k});
      InsertKeysValueAt(m, keys - {k});
      InsertFreshBag(before, m[k], [k]);
      KeyStringsStep(keys, k);
    }
  }

  /** Inserting into a node that held no value adds the new value to the bag. */
  lemma InsertFreshBag(n: Tree, code: string, v: string)
    requires n.Node? && ValueAt(n, code) == "" && v != ""
    ensures LabelBag(Insert(n, code, v)) == LabelBag(n) + multiset{v}
  {
    InsertByPath(n, code, v);
    ReachByPath(n, code);
    InsertBagPath(n, Path(code), v);
  }

  /** The built trie lists each visited key exactly once. */
  lemma InsertKeysLabels(m: map<char, string>, keys: set<char>)
    requires keys <= m.Keys && DistinctPaths(m)
    ensures multiset(Labels(InsertKeys(m, keys))) == KeyStrings(keys)
  {
    InsertKeysBag(m, keys);
    LabelsBag(InsertKeys(m, keys));
  }

  /** Each key's string occurs once in `KeyStrings`, and nothing else occurs. */
  lemma KeyStringsMembers(keys: set<char>)
    ensures forall c :: c in keys ==> KeyStrings(keys)[[c]] == 1
    ensures forall s :: s in KeyStrings(keys) ==> |s| == 1 && s[0] in keys
  {
    forall s | s in KeyStrings(keys)
      ensures |s| == 1 && s[0] in keys
    {
      var c :| c in keys && s == [c];
    }
  }

  /**
   * The pre-order listing of the built trie is as long as there are keys,
   * lists each key's string once, and lists nothing else.
   */
  lemma InsertKeysListing(m: map<char, string>, keys: set<char>)
    requires keys <= m.Keys && DistinctPaths(m)
    ensures |Labels(InsertKeys(m, keys))| == |keys|
    ensures forall c :: c in keys ==> multiset(Labels(InsertKeys(m, keys)))[[c]] == 1
    ensures forall s :: s in Labels(InsertKeys(m, keys)) ==> |s| == 1 && s[0] in keys
  {
    var ls := Labels(InsertKeys(m, keys));
    InsertKeysLabels(m, keys);
    KeyStringsCard(keys);
    KeyStringsMembers(keys);
    assert |ls| == |multiset(ls)|;
    forall s | s in ls
      ensures |s| == 1 && s[0] in keys
    {
      assert s in multiset(ls);
    }
  }

  /** The built trie is no deeper than its longest path allows. */
  lemma {:induction false} InsertKeysHeight(m: map<char, string>, keys: set<char>, d: nat)
    requires keys <= m.Keys
    requires forall c :: c in keys ==> |Path(m[c])| <= d
    ensures Height(InsertKeys(m, keys)) <= d + 1
    decreases keys
  {
    if keys != {} {
      var k :| k in keys && InsertKeys(m, keys) == Insert(InsertKeys(m, keys - {k}), m[k], [k]);
      InsertKeysHeight(m, keys - {k}, d);
      InsertHeight(InsertKeys(m, keys - {k}), m[k], [k], d);
    }
  }
}
