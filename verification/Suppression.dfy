/**
 The `@SuppressWarnings` scopes of `crates/ide-diagnostics/src/lint.rs`: one walk
 that carries the keys in effect, against the lexical rule of section 9.6.4.5 of
 the Java Language Specification.
 */
module Suppression {
  import opened Wrappers
  import opened SyntaxTree

  datatype LintKey = Unchecked | RawTypes | Deprecation | Removal

  /**
   The node kinds the collector tells apart. An annotation carries the constant
   values it was read to hold: `None` for any annotation but a
   `java.lang.SuppressWarnings` with readable arguments.
   */
  datatype Kind = ModifierList | Annotation(values: Option<seq<string>>) | EnumConstant | OtherKind(code: nat)

  type Tree = Node<Kind>

  datatype Scope = Scope(range: Range, keys: set<LintKey>)

  // ----- the keys written on one declaration

  const ALL: set<LintKey> := {Unchecked, RawTypes, Deprecation, Removal}

  /** Strings that name no reported warning name nothing. */
  function KeysOf(text: string): set<LintKey> {
    if text == "unchecked" then {Unchecked}
    else if text == "rawtypes" then {RawTypes}
    else if text == "deprecation" then {Deprecation}
    else if text == "removal" then {Removal}
    else if text == "all" then ALL
    else {}
  }

  function AnnotationKeys(n: Tree): set<LintKey> {
    if n.kind.Annotation? && n.kind.values.Some?
    then set i, k | 0 <= i < |n.kind.values.value| && k in KeysOf(n.kind.values.value[i]) :: k
    else {}
  }

  function FirstModifierList(kids: seq<Tree>): (i: nat)
    ensures i <= |kids|
    ensures i < |kids| ==> kids[i].kind == ModifierList
    ensures forall j | 0 <= j < i :: kids[j].kind != ModifierList
  {
    if kids == [] || kids[0].kind == ModifierList then 0 else 1 + FirstModifierList(kids[1..])
  }

  /** `a` is an annotation of the declaration `n`: in its first modifier list, or on an enum constant. */
  ghost predicate Annotates(a: Tree, n: Tree) {
    var m := FirstModifierList(n.children);
    || (m < |n.children| && a in n.children[m].children)
    || (n.kind == EnumConstant && a in n.children)
  }

  method CollectKeys(annotations: seq<Tree>, keys: set<LintKey>) returns (out: set<LintKey>)
    ensures forall k :: k in out <==> k in keys || exists a | a in annotations :: k in AnnotationKeys(a)
  {
    out := keys;
    for i := 0 to |annotations|
      invariant forall k :: k in out <==> k in keys || exists a | a in annotations[..i] :: k in AnnotationKeys(a)
    {
      assert annotations[..i + 1] == annotations[..i] + [annotations[i]];
      out := out + AnnotationKeys(annotations[i]);
    }
    assert annotations[..|annotations|] == annotations;
  }

  /** The keys the annotations written on `n` name; empty for a node that is no declaration. */
  method DeclarationKeys(n: Tree) returns (out: set<LintKey>)
    ensures out == OwnKeys(n)
  {
    out := {};
    var m := FirstModifierList(n.children);
    if m < |n.children| {
      out := CollectKeys(n.children[m].children, out);
    }
    if n.kind == EnumConstant {
      out := CollectKeys(n.children, out);
    }
    forall k ensures k in out <==> Names(n, k) {}
    OwnKeysAreNamed(n);
  }

  ghost predicate Names(n: Tree, key: LintKey) {
    exists a :: Annotates(a, n) && key in AnnotationKeys(a)
  }

  ghost function OwnKeys(n: Tree): set<LintKey> {
    set k | k in ALL && Names(n, k)
  }

  lemma OwnKeysAreNamed(n: Tree)
    ensures forall k :: k in OwnKeys(n) <==> Names(n, k)
  {
    forall k: LintKey ensures k in ALL {
      match k case Unchecked => case RawTypes => case Deprecation => case Removal =>
    }
  }

  // ----- the walk

  ghost function Scopes(n: Tree, inherited: set<LintKey>): seq<Scope>
    decreases n, 1
  {
    var keys := inherited + OwnKeys(n);
    (if OwnKeys(n) != {} then [Scope(n.range, keys)] else []) + ScopesFrom(n, 0, keys)
  }

  ghost function ScopesFrom(n: Tree, i: nat, keys: set<LintKey>): seq<Scope>
    decreases n, 0, |n.children| - i
  {
    if i >= |n.children| then [] else Scopes(n.children[i], keys) + ScopesFrom(n, i + 1, keys)
  }

  lemma OneMoreChild(n: Tree, i: nat, keys: set<LintKey>, before: seq<Scope>)
    requires i < |n.children|
    ensures before + ScopesFrom(n, i, keys) == before + Scopes(n.children[i], keys) + ScopesFrom(n, i + 1, keys)
  {}

  method Collect(n: Tree, inherited: set<LintKey>, scopes: seq<Scope>) returns (out: seq<Scope>)
    ensures out == scopes + Scopes(n, inherited)
    decreases n
  {
    out := scopes;
    var own := DeclarationKeys(n);
    var keys := inherited + own;
    if own != {} {
      out := out + [Scope(n.range, keys)];
    }
    ghost var start := out;
    for i := 0 to |n.children|
      invariant out + ScopesFrom(n, i, keys) == start + ScopesFrom(n, 0, keys)
    {
      ghost var before := out;
      out := Collect(n.children[i], keys, out);
      OneMoreChild(n, i, keys, before);
    }
    assert out + [] == out;
  }

  /** Whether some scope carries the key and contains the range. */
  predicate IsSuppressed(scopes: seq<Scope>, range: Range, key: LintKey) {
    exists i | 0 <= i < |scopes| :: key in scopes[i].keys && scopes[i].range.Contains(range)
  }

  // ----- the lexical rule

  /** The declaration at `path` itself names `key`, and `range` is one of its parts. */
  ghost predicate SuppressesAt(root: Tree, path: seq<nat>, range: Range, key: LintKey) {
    && ValidPath(root, path)
    && Names(NodeAt(root, path), key)
    && NodeAt(root, path).range.Contains(range)
  }

  lemma {:induction false} ScopeHasCulprit(n: Tree, inherited: set<LintKey>, s: Scope, range: Range, key: LintKey)
    returns (path: seq<nat>)
    requires Nested(n) && s in Scopes(n, inherited) && key in s.keys && s.range.Contains(range)
    ensures n.range.Contains(s.range)
    ensures key in inherited || SuppressesAt(n, path, range, key)
    decreases n, 1
  {
    OwnKeysAreNamed(n);
    path := [];
    var keys := inherited + OwnKeys(n);
    if s != Scope(n.range, keys) || OwnKeys(n) == {} {
      var i, below := ScopeFromChild(n, 0, keys, s, range, key);
      if key !in keys {
        path := [i] + below;
        assert path[1..] == below;
      }
    }
  }

  lemma {:induction false} ScopeFromChild(n: Tree, k: nat, keys: set<LintKey>, s: Scope, range: Range, key: LintKey)
    returns (i: nat, path: seq<nat>)
    requires Nested(n) && s in ScopesFrom(n, k, keys) && key in s.keys && s.range.Contains(range)
    ensures i < |n.children| && n.children[i].range.Contains(s.range)
    ensures key in keys || SuppressesAt(n.children[i], path, range, key)
    decreases n, 0, |n.children| - k
  {
    if s in Scopes(n.children[k], keys) {
      i := k;
      path := ScopeHasCulprit(n.children[k], keys, s, range, key);
    } else {
      i, path := ScopeFromChild(n, k + 1, keys, s, range, key);
    }
  }

  lemma {:induction false} NamedKeyHasScope(n: Tree, inherited: set<LintKey>, path: seq<nat>, key: LintKey)
    returns (s: Scope)
    requires ValidPath(n, path) && Names(NodeAt(n, path), key)
    ensures s in Scopes(n, inherited) && key in s.keys && s.range == NodeAt(n, path).range
    decreases n
  {
    OwnKeysAreNamed(n);
    var keys := inherited + OwnKeys(n);
    if path == [] {
      s := Scope(n.range, keys);
    } else {
      s := NamedKeyHasScope(n.children[path[0]], keys, path[1..], key);
      ChildScopesAreScopes(n, path[0], 0, keys, s);
    }
  }

  lemma {:induction false} ChildScopesAreScopes(n: Tree, c: nat, k: nat, keys: set<LintKey>, s: Scope)
    requires k <= c < |n.children| && s in Scopes(n.children[c], keys)
    ensures s in ScopesFrom(n, k, keys)
    decreases c - k
  {
    if k < c {
      ChildScopesAreScopes(n, c, k + 1, keys, s);
    }
  }

  /**
   A warning is suppressed exactly when some declaration it lies in names its
   key: inheriting keys down the walk neither adds nor loses a suppression.
   */
  lemma SuppressedIffSomeEnclosingDeclarationNamesIt(root: Tree, range: Range, key: LintKey)
    requires Nested(root)
    ensures IsSuppressed(Scopes(root, {}), range, key)
       <==> exists path: seq<nat> :: SuppressesAt(root, path, range, key)
  {
    var scopes := Scopes(root, {});
    if IsSuppressed(scopes, range, key) {
      var i :| 0 <= i < |scopes| && key in scopes[i].keys && scopes[i].range.Contains(range);
      var path := ScopeHasCulprit(root, {}, scopes[i], range, key);
      assert SuppressesAt(root, path, range, key);
    }
    if path: seq<nat> :| SuppressesAt(root, path, range, key) {
      var s := NamedKeyHasScope(root, {}, path, key);
      var i :| 0 <= i < |scopes| && scopes[i] == s;
    }
  }

  // ----- the words

  /** The strings that name a warning; "all" names each. */
  lemma KeysAre(text: string, key: LintKey)
    ensures key in KeysOf(text) <==>
      match key
      case Unchecked => text in {"unchecked", "all"}
      case RawTypes => text in {"rawtypes", "all"}
      case Deprecation => text in {"deprecation", "all"}
      case Removal => text in {"removal", "all"}
  {
    assert "unchecked" != "all" && "rawtypes" != "all" && "deprecation" != "all" && "removal" != "all";
  }

  /** A declaration names a key exactly when one of its annotations holds a string that does. */
  lemma NamesIff(n: Tree, key: LintKey)
    ensures Names(n, key) <==> exists a, values, k ::
      Annotates(a, n) && a.kind == Annotation(Some(values)) && 0 <= k < |values| && key in KeysOf(values[k])
  {
    if Names(n, key) {
      var a :| Annotates(a, n) && key in AnnotationKeys(a);
      var values := a.kind.values.value;
      var k :| 0 <= k < |values| && key in KeysOf(values[k]);
      assert a.kind == Annotation(Some(values));
    }
    if a, values, k :| Annotates(a, n) && a.kind == Annotation(Some(values)) && 0 <= k < |values| && key in KeysOf(values[k]) {
      assert key in AnnotationKeys(a);
    }
  }
}
