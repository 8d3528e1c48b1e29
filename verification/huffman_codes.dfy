/** `generate_codes`: the code of a leaf character is the path from the root to its leaf,
    `0` for every left edge and `1` for every right edge. */
module HuffmanCodes {
  import opened Wrappers
  import opened HuffmanTree
  import opened BitPacking

  /** The entries `generate_codes(t, prefix)` writes: each leaf character maps to `prefix`
      followed by its path. The left subtree is walked first, so when a character sits at two
      leaves the right-hand one wins, as with Python's later `code_map[char] = ...`. */
  function CodeTable(t: Tree, prefix: string): map<char, string>
  {
    match t
    case Leaf(c, _) => map[c := prefix]
    case Node(_, l, r) => CodeTable(l, prefix + "0") + CodeTable(r, prefix + "1")
  }

  /** Walks a path of `0`/`1` down from the root; the character of the leaf reached exactly
      when the path ends, if any. */
  function Follow(t: Tree, path: string): Option<char>
  {
    match t
    case Leaf(c, _) => if path == [] then Some(c) else None
    case Node(_, l, r) =>
      if path == [] then None
      else if path[0] == '0' then Follow(l, path[1..])
      else if path[0] == '1' then Follow(r, path[1..])
      else None
  }

  /** No code is a prefix of another character's code. */
  predicate PrefixFree(codes: map<char, string>)
  {
    forall c, d :: c in codes && d in codes && c != d ==> !(codes[c] <= codes[d])
  }

  predicate AllBits(codes: map<char, string>)
  {
    forall c :: c in codes ==> IsBits(codes[c])
  }

  /** The table has exactly one entry per leaf character. */
  lemma {:induction false} CodeTableKeys(t: Tree, prefix: string)
    ensures forall c :: c in CodeTable(t, prefix) <==> c in Leaves(t)
  {
    match t
    case Leaf(_, _) =>
    case Node(_, l, r) =>
      CodeTableKeys(l, prefix + "0");
      CodeTableKeys(r, prefix + "1");
  }

  /** Every code is `prefix` followed by a path that leads from the root to that character's
      leaf. */
  lemma {:induction false} CodeTablePaths(t: Tree, prefix: string)
    ensures forall c :: c in CodeTable(t, prefix) ==>
      && prefix <= CodeTable(t, prefix)[c]
      && Follow(t, CodeTable(t, prefix)[c][|prefix|..]) == Some(c)
  {
    match t
    case Leaf(_, _) =>
      assert prefix[|prefix|..] == [];
    case Node(_, l, r) =>
      var p0, p1 := prefix + "0", prefix + "1";
      CodeTablePaths(l, p0);
      CodeTablePaths(r, p1);
      var m := CodeTable(t, prefix);
      forall c | c in m
        ensures prefix <= m[c] && Follow(t, m[c][|prefix|..]) == Some(c)
      {
        var p := if c in CodeTable(r, p1) then p1 else p0;
        var code := m[c];
        assert p <= code;
        assert code[|prefix|..][1..] == code[|p|..];
      }
  }

  /** With a bit-string prefix, every code is a bit string. */
  lemma {:induction false} CodeTableBits(t: Tree, prefix: string)
    requires IsBits(prefix)
    ensures AllBits(CodeTable(t, prefix))
  {
    match t
    case Leaf(_, _) =>
    case Node(_, l, r) =>
      var p0, p1 := prefix + "0", prefix + "1";
      assert IsBits(p0) && IsBits(p1);
      CodeTableBits(l, p0);
      CodeTableBits(r, p1);
  }

  /** A path that ends at a leaf cannot be extended to another path that ends at a leaf. */
  lemma {:induction false} FollowPrefix(t: Tree, u: string, v: string)
    requires Follow(t, u).Some? && Follow(t, u + v).Some?
    ensures v == [] && Follow(t, u + v) == Follow(t, u)
  {
    match t
    case Leaf(_, _) =>
      assert u == [];
      assert u + v == v;
    case Node(_, l, r) =>
      assert (u + v)[0] == u[0] && (u + v)[1..] == u[1..] + v;
      if u[0] == '0' {
        FollowPrefix(l, u[1..], v);
      } else {
        FollowPrefix(r, u[1..], v);
      }
  }

  /** The table is prefix-free, because the codes are paths to distinct leaves of a tree. */
  lemma CodeTablePrefixFree(t: Tree)
    ensures PrefixFree(CodeTable(t, ""))
  {
    var m := CodeTable(t, "");
    CodeTablePaths(t, "");
    forall c, d | c in m && d in m && c != d
      ensures !(m[c] <= m[d])
    {
      if m[c] <= m[d] {
        assert m[c][0..] == m[c] && m[d][0..] == m[d];
        var v := m[d][|m[c]|..];
        assert m[d] == m[c] + v;
        FollowPrefix(t, m[c], v);
        assert false;
      }
    }
  }

  /** Below an internal root every code has at least one bit; a single-leaf tree gives its
      character the empty code. */
  lemma CodeTableLengths(t: Tree)
    ensures t.Node? ==> forall c :: c in CodeTable(t, "") ==> |CodeTable(t, "")[c]| > 0
    ensures t.Leaf? ==> CodeTable(t, "") == map[t.ch := ""]
  {
    CodeTablePaths(t, "");
    if t.Node? {
      forall c | c in CodeTable(t, "")
        ensures |CodeTable(t, "")[c]| > 0
      {
        assert CodeTable(t, "")[c][0..] == CodeTable(t, "")[c];
      }
    }
  }

  /** The recursion of `generate_codes` over the one dictionary it fills. */
  method Walk(node: Tree, prefix: string, codeMap: map<char, string>) returns (m: map<char, string>)
    ensures m == codeMap + CodeTable(node, prefix)
    decreases node
  {
    m := codeMap;
    if node.Leaf? {
      m := m[node.ch := prefix];
    } else {
      m := Walk(node.left, prefix + "0", m);
      m := Walk(node.right, prefix + "1", m);
      assert m == codeMap + (CodeTable(node.left, prefix + "0") + CodeTable(node.right, prefix + "1"));
    }
  }

  /** `generate_codes(root)`: a prefix-free table of bit strings with one entry per leaf
      character, each the path to that character's leaf; non-empty codes below an internal root,
      the single empty code for a single-leaf tree. */
  method GenerateCodes(root: Tree) returns (codes: map<char, string>)
    ensures codes == CodeTable(root, "")
    ensures forall c :: c in codes <==> c in Leaves(root)
    ensures forall c :: c in codes ==> IsBits(codes[c]) && Follow(root, codes[c]) == Some(c)
    ensures PrefixFree(codes)
    ensures root.Node? ==> forall c :: c in codes ==> |codes[c]| > 0
    ensures root.Leaf? ==> codes == map[root.ch := ""]
  {
    codes := Walk(root, "", map[]);
    assert codes == CodeTable(root, "");
    CodeTableKeys(root, "");
    CodeTablePaths(root, "");
    CodeTableBits(root, "");
    forall c | c in codes
      ensures codes[c][0..] == codes[c]
    {
    }
    CodeTablePrefixFree(root);
    CodeTableLengths(root);
  }
}
