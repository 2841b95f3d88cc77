/**
 * Brvr_Db_Query_WhereCondition (Db/Query/WhereCondition.php): a condition is
 * a glue (AND, OR or XOR), a negation flag and a list of components, each a
 * piece of SQL text or another condition. Conditions are shared objects: a
 * query holds one, the caller may keep adding to it, and a condition may sit
 * inside several others. They are modelled as the nodes of one store, a
 * node's index standing for the object's identity. Adding a condition that
 * contains the receiver is refused, so the containment graph stays acyclic;
 * the ghost `rank` witnesses that (every child ranks below its parent).
 */
module DbWhereCondition {
  import opened Wrappers
  import opened Php
  import opened PhpValue

  /** The glue must be one of the three class constants, compared with `===`. */
  predicate IsGlue(glue: Value) {
    glue == Str("AND") || glue == Str("OR") || glue == Str("XOR")
  }

  /**
   * A component: SQL text, another condition of the store, or some other
   * object, which prints as its `__toString()` text.
   */
  datatype Component = Text(text: string) | Child(id: nat) | Foreign(shown: string)

  /** One condition object: `_glue`, `_not`, `_components`. */
  datatype Node = Node(glue: string, negated: bool, components: seq<Component>)

  /** A value that is neither a string nor an object. */
  type Scalar = v: Value | !v.Str? && !v.Object? witness Null

  /**
   * What `addWhereCondition` is given: SQL text, a condition of the store,
   * another object (with the text its `__toString()` gives), or a value that
   * is neither string nor object.
   */
  datatype Condition =
    | TextCondition(text: string)
    | NodeCondition(id: nat)
    | ObjectCondition(shown: string)
    | NotStringOrObject(value: Scalar)

  /** The component an accepted argument becomes. */
  function ComponentOf(condition: Condition): (c: Component)
    requires !condition.NotStringOrObject?
    ensures c.Child? <==> condition.NodeCondition?
    ensures condition.TextCondition? ==> c == Text(condition.text)
    ensures condition.NodeCondition? ==> c == Child(condition.id)
    ensures condition.ObjectCondition? ==> c == Foreign(condition.shown)
  {
    match condition
    case TextCondition(text) => Text(text)
    case NodeCondition(id) => Child(id)
    case ObjectCondition(shown) => Foreign(shown)
  }

  /** Every child is a node of the store and ranks below its parent. */
  ghost predicate Ranked(nodes: seq<Node>, rank: seq<nat>) {
    |rank| == |nodes| &&
    forall i, k {:trigger nodes[i].components[k]} ::
      0 <= i < |nodes| && 0 <= k < |nodes[i].components| && nodes[i].components[k].Child? ==>
        nodes[i].components[k].id < |nodes| && rank[nodes[i].components[k].id] < rank[i]
  }

  /** `target` is reachable from `from` through one or more child links. */
  ghost predicate Descends(nodes: seq<Node>, rank: seq<nat>, from: nat, target: nat)
    requires Ranked(nodes, rank) && from < |nodes|
    decreases rank[from], 1, 0
  {
    DescendsFrom(nodes, rank, from, 0, target)
  }

  /** Some component of `from` at index `k` or later is `target` or reaches it. */
  ghost predicate DescendsFrom(nodes: seq<Node>, rank: seq<nat>, from: nat, k: nat, target: nat)
    requires Ranked(nodes, rank) && from < |nodes| && k <= |nodes[from].components|
    decreases rank[from], 0, |nodes[from].components| - k
  {
    if k == |nodes[from].components| then false
    else
      var c := nodes[from].components[k];
      (c.Child? && (c.id == target || Descends(nodes, rank, c.id, target)))
      || DescendsFrom(nodes, rank, from, k + 1, target)
  }

  /** A descendant always ranks below: so no condition contains itself. */
  lemma {:induction false} DescendantRanksBelow(nodes: seq<Node>, rank: seq<nat>, from: nat, k: nat, target: nat)
    requires Ranked(nodes, rank) && from < |nodes| && k <= |nodes[from].components|
    requires DescendsFrom(nodes, rank, from, k, target)
    ensures target < |nodes| && rank[target] < rank[from]
    decreases rank[from], |nodes[from].components| - k
  {
    var c := nodes[from].components[k];
    if c.Child? && (c.id == target || Descends(nodes, rank, c.id, target)) {
      if c.id != target {
        DescendantRanksBelow(nodes, rank, c.id, 0, target);
      }
    } else {
      DescendantRanksBelow(nodes, rank, from, k + 1, target);
    }
  }

  lemma NoConditionContainsItself(nodes: seq<Node>, rank: seq<nat>, id: nat)
    requires Ranked(nodes, rank) && id < |nodes|
    ensures !Descends(nodes, rank, id, id)
  {
    if Descends(nodes, rank, id, id) {
      DescendantRanksBelow(nodes, rank, id, 0, id);
    }
  }

  /** A parent reaches whatever its child reaches. */
  lemma {:induction false} ParentDescends(nodes: seq<Node>, rank: seq<nat>, from: nat, k: nat, target: nat)
    requires Ranked(nodes, rank) && from < |nodes| && k < |nodes[from].components|
    requires nodes[from].components[k].Child?
    requires nodes[from].components[k].id == target || Descends(nodes, rank, nodes[from].components[k].id, target)
    ensures Descends(nodes, rank, from, target)
  {
    ParentDescendsFrom(nodes, rank, from, 0, k, target);
  }

  lemma {:induction false} ParentDescendsFrom(nodes: seq<Node>, rank: seq<nat>, from: nat, j: nat, k: nat, target: nat)
    requires Ranked(nodes, rank) && from < |nodes| && j <= k < |nodes[from].components|
    requires nodes[from].components[k].Child?
    requires nodes[from].components[k].id == target || Descends(nodes, rank, nodes[from].components[k].id, target)
    ensures DescendsFrom(nodes, rank, from, j, target)
    decreases k - j
  {
    if j < k {
      ParentDescendsFrom(nodes, rank, from, j + 1, k, target);
    }
  }

  /**
   * The rank after `child` is added to `parent`: the parent and every
   * condition containing it are lifted above the child.
   */
  ghost function Lift(nodes: seq<Node>, rank: seq<nat>, parent: nat, child: nat): (lifted: seq<nat>)
    requires Ranked(nodes, rank) && parent < |nodes| && child < |nodes|
    ensures |lifted| == |rank|
  {
    seq(|nodes|, i requires 0 <= i < |nodes| =>
      if i == parent || Descends(nodes, rank, i, parent) then rank[i] + rank[child] + 1 else rank[i])
  }

  /** Adding `child` to `parent` keeps the store acyclic when the child does not contain the parent. */
  lemma AddKeepsRanked(nodes: seq<Node>, rank: seq<nat>, parent: nat, child: nat)
    requires Ranked(nodes, rank) && parent < |nodes| && child < |nodes|
    requires child != parent && !Descends(nodes, rank, child, parent)
    ensures Ranked(nodes[parent := nodes[parent].(components := nodes[parent].components + [Child(child)])],
                   Lift(nodes, rank, parent, child))
  {
    var lifted := Lift(nodes, rank, parent, child);
    var news := nodes[parent := nodes[parent].(components := nodes[parent].components + [Child(child)])];
    forall i, k | 0 <= i < |news| && 0 <= k < |news[i].components| && news[i].components[k].Child?
      ensures news[i].components[k].id < |news| && lifted[news[i].components[k].id] < lifted[i]
    {
      if i == parent && k == |nodes[parent].components| {
        assert news[i].components[k] == Child(child);
      } else {
        assert news[i].components[k] == nodes[i].components[k];
        var c := nodes[i].components[k].id;
        if c == parent || Descends(nodes, rank, c, parent) {
          ParentDescends(nodes, rank, i, k, parent);
        }
      }
    }
  }

  /** Appending a component that is not a condition (text or another object) keeps the ranks valid. */
  lemma AddTextKeepsRanked(nodes: seq<Node>, rank: seq<nat>, id: nat, component: Component)
    requires Ranked(nodes, rank) && id < |nodes| && !component.Child?
    ensures Ranked(nodes[id := nodes[id].(components := nodes[id].components + [component])], rank)
  {
    var news := nodes[id := nodes[id].(components := nodes[id].components + [component])];
    forall i, k | 0 <= i < |news| && 0 <= k < |news[i].components| && news[i].components[k].Child?
      ensures news[i].components[k].id < |news| && rank[news[i].components[k].id] < rank[i]
    {
      assert news[i].components[k] == nodes[i].components[k];
    }
  }

  /** `__toString()`: `NOT ` when negated, then the components joined by the glue, in brackets. */
  function Render(nodes: seq<Node>, ghost rank: seq<nat>, id: nat): (s: string)
    requires Ranked(nodes, rank) && id < |nodes|
    ensures |s| >= 2 && s[|s| - 1] == ')'
    ensures nodes[id].negated ==> |s| >= 6 && s[..5] == "NOT ("
    ensures !nodes[id].negated ==> s[0] == '('
    decreases rank[id], 1, 0
  {
    var n := nodes[id];
    var body := "(" + Join(" " + n.glue + " ", RenderFrom(nodes, rank, id, 0)) + ")";
    if n.negated then "NOT " + body else body
  }

  /** The texts of the components of `id` from index `k` on. */
  function RenderFrom(nodes: seq<Node>, ghost rank: seq<nat>, id: nat, k: nat): (texts: seq<string>)
    requires Ranked(nodes, rank) && id < |nodes| && k <= |nodes[id].components|
    ensures |texts| == |nodes[id].components| - k
    decreases rank[id], 0, |nodes[id].components| - k
  {
    if k == |nodes[id].components| then []
    else
      var text := match nodes[id].components[k]
        case Text(t) => t
        case Child(c) => Render(nodes, rank, c)
        case Foreign(t) => t;
      [text] + RenderFrom(nodes, rank, id, k + 1)
  }

  /**
   * Changing condition `id` leaves the text of every condition that does not
   * contain it as it was, whatever ranks witness the two stores.
   */
  lemma {:induction false} RenderAgrees(n1: seq<Node>, r1: seq<nat>, n2: seq<Node>, r2: seq<nat>, c: nat, id: nat)
    requires Ranked(n1, r1) && Ranked(n2, r2) && |n1| == |n2| && c < |n1| && id < |n1|
    requires forall i :: 0 <= i < |n1| && i != id ==> n1[i] == n2[i]
    requires c != id && !Descends(n1, r1, c, id)
    ensures Render(n1, r1, c) == Render(n2, r2, c)
    decreases r1[c], 1
  {
    RenderFromAgrees(n1, r1, n2, r2, c, 0, id);
  }

  lemma {:induction false} RenderFromAgrees(n1: seq<Node>, r1: seq<nat>, n2: seq<Node>, r2: seq<nat>, c: nat, k: nat, id: nat)
    requires Ranked(n1, r1) && Ranked(n2, r2) && |n1| == |n2| && c < |n1| && id < |n1|
    requires forall i :: 0 <= i < |n1| && i != id ==> n1[i] == n2[i]
    requires c != id && k <= |n1[c].components| && !DescendsFrom(n1, r1, c, k, id)
    ensures RenderFrom(n1, r1, c, k) == RenderFrom(n2, r2, c, k)
    decreases r1[c], 0, |n1[c].components| - k
  {
    assert n1[c] == n2[c];
    if k < |n1[c].components| {
      match n1[c].components[k] {
        case Text(_) =>
        case Child(x) =>
          RenderAgrees(n1, r1, n2, r2, x, id);
        case Foreign(_) =>
      }
      RenderFromAgrees(n1, r1, n2, r2, c, k + 1, id);
    }
  }

  /** The text a new component contributes to its parent. */
  function ComponentText(nodes: seq<Node>, ghost rank: seq<nat>, component: Component): string
    requires Ranked(nodes, rank) && (component.Child? ==> component.id < |nodes|)
  {
    match component
    case Text(t) => t
    case Child(x) => Render(nodes, rank, x)
    case Foreign(t) => t
  }

  /**
   * Appending a component that does not contain `id` (every component the
   * store accepts) adds exactly its text to the texts of `id`, after those
   * already there.
   */
  lemma AddExtendsText(nodes: seq<Node>, rank: seq<nat>, news: seq<Node>, newRank: seq<nat>, id: nat, component: Component)
    requires Ranked(nodes, rank) && id < |nodes|
    requires component.Child? ==> component.id < |nodes| && component.id != id && !Descends(nodes, rank, component.id, id)
    requires news == nodes[id := nodes[id].(components := nodes[id].components + [component])]
    requires Ranked(news, newRank)
    ensures RenderFrom(news, newRank, id, 0) == RenderFrom(nodes, rank, id, 0) + [ComponentText(nodes, rank, component)]
  {
    AddExtendsTextFrom(nodes, rank, news, newRank, id, component, 0);
  }

  lemma {:induction false} AddExtendsTextFrom(nodes: seq<Node>, rank: seq<nat>, news: seq<Node>, newRank: seq<nat>, id: nat, component: Component, k: nat)
    requires Ranked(nodes, rank) && id < |nodes|
    requires component.Child? ==> component.id < |nodes| && component.id != id && !Descends(nodes, rank, component.id, id)
    requires news == nodes[id := nodes[id].(components := nodes[id].components + [component])]
    requires Ranked(news, newRank) && k <= |nodes[id].components|
    ensures RenderFrom(news, newRank, id, k) == RenderFrom(nodes, rank, id, k) + [ComponentText(nodes, rank, component)]
    decreases |nodes[id].components| - k
  {
    var m := |nodes[id].components|;
    var t := ComponentText(nodes, rank, component);
    RenderFromUnfold(news, newRank, id, k);
    if k == m {
      assert news[id].components[k] == component;
      ComponentTextAgrees(nodes, rank, news, newRank, component, id);
      RenderFromUnfold(news, newRank, id, k + 1);
      RenderFromUnfold(nodes, rank, id, k);
      assert [t] + [] == [] + [t];
    } else {
      var c := nodes[id].components[k];
      assert news[id].components[k] == c;
      if c.Child? && Descends(nodes, rank, c.id, id) {
        DescendantRanksBelow(nodes, rank, c.id, 0, id);
      }
      ComponentTextAgrees(nodes, rank, news, newRank, c, id);
      AddExtendsTextFrom(nodes, rank, news, newRank, id, component, k + 1);
      RenderFromUnfold(nodes, rank, id, k);
      var u := ComponentText(nodes, rank, c);
      assert [u] + (RenderFrom(nodes, rank, id, k + 1) + [t]) == ([u] + RenderFrom(nodes, rank, id, k + 1)) + [t];
    }
  }

  /** One step of RenderFrom. */
  lemma RenderFromUnfold(nodes: seq<Node>, rank: seq<nat>, id: nat, k: nat)
    requires Ranked(nodes, rank) && id < |nodes| && k <= |nodes[id].components|
    ensures k == |nodes[id].components| ==> RenderFrom(nodes, rank, id, k) == []
    ensures k < |nodes[id].components| ==>
      nodes[id].components[k].Child? ==> nodes[id].components[k].id < |nodes|
    ensures k < |nodes[id].components| ==>
      RenderFrom(nodes, rank, id, k) ==
        [ComponentText(nodes, rank, nodes[id].components[k])] + RenderFrom(nodes, rank, id, k + 1)
  {
  }

  /** A condition made of one piece of SQL text prints as that text in brackets. */
  lemma RenderSingleText(nodes: seq<Node>, rank: seq<nat>, id: nat, text: string)
    requires Ranked(nodes, rank) && id < |nodes|
    requires nodes[id] == Node(nodes[id].glue, false, [Text(text)])
    ensures Render(nodes, rank, id) == "(" + text + ")"
  {
    RenderFromUnfold(nodes, rank, id, 0);
    RenderFromUnfold(nodes, rank, id, 1);
  }

  /** A component that does not contain `id` has the same text in both stores. */
  lemma ComponentTextAgrees(n1: seq<Node>, r1: seq<nat>, n2: seq<Node>, r2: seq<nat>, component: Component, id: nat)
    requires Ranked(n1, r1) && Ranked(n2, r2) && |n1| == |n2| && id < |n1|
    requires forall i :: 0 <= i < |n1| && i != id ==> n1[i] == n2[i]
    requires component.Child? ==> component.id < |n1| && component.id != id && !Descends(n1, r1, component.id, id)
    ensures ComponentText(n1, r1, component) == ComponentText(n2, r2, component)
  {
    if component.Child? {
      RenderAgrees(n1, r1, n2, r2, component.id, id);
    }
  }

  /** The condition objects in existence. */
  class Conditions {
    var nodes: seq<Node>
    ghost var rank: seq<nat>

    ghost predicate Valid()
      reads this
    {
      Ranked(nodes, rank) && forall i :: 0 <= i < |nodes| ==> IsGlue(Str(nodes[i].glue))
    }

    constructor ()
      ensures Valid() && nodes == []
    {
      nodes := [];
      rank := [];
    }

    /** `new Brvr_Db_Query_WhereCondition($glue)`: a new, empty, condition, or an error for another glue. */
    method NewCondition(glue: Value) returns (r: Result<nat>)
      requires Valid()
      modifies this
      ensures Valid()
      ensures r.Success? <==> IsGlue(glue)
      ensures r.Success? ==> r.value == |old(nodes)| && nodes == old(nodes) + [Node(glue.s, false, [])]
      ensures r.Failure? ==>
        nodes == old(nodes) && r.error == "Only 'AND', 'OR' or 'XOR' are valid for the 'glue' parameter"
    {
      if !IsGlue(glue) {
        return Failure("Only 'AND', 'OR' or 'XOR' are valid for the 'glue' parameter");
      }
      var news := nodes + [Node(glue.s, false, [])];
      assert forall i, k :: 0 <= i < |nodes| && 0 <= k < |nodes[i].components| ==>
        news[i].components[k] == nodes[i].components[k];
      r := Success(|nodes|);
      nodes := news;
      rank := rank + [0];
    }

    /**
     * `addWhereCondition($condition)` on condition `id`: append the text or
     * the object, unless it is neither string nor object, or it is a
     * condition that is `id` itself or contains `id`.
     */
    method AddWhereCondition(id: nat, condition: Condition) returns (r: Result<nat>)
      requires Valid() && id < |nodes|
      requires condition.NodeCondition? ==> condition.id < |nodes|
      modifies this
      ensures Valid()
      ensures r.Success? <==>
        !condition.NotStringOrObject? &&
        !(condition.NodeCondition? && (condition.id == id || Descends(old(nodes), old(rank), condition.id, id)))
      ensures r.Success? ==> r.value == id
      ensures r.Success? ==>
        nodes == old(nodes)[id := old(nodes)[id].(components := old(nodes)[id].components + [ComponentOf(condition)])]
      ensures r.Failure? ==> nodes == old(nodes)
      ensures r.Failure? && condition.NotStringOrObject? ==> r.error == "Where conditionsmust be either a string or an object"
      ensures r.Failure? && !condition.NotStringOrObject? ==> r.error == "Recursion detected in added WhereConditon"
    {
      match condition {
        case NotStringOrObject(_) =>
          return Failure("Where conditionsmust be either a string or an object");
        case TextCondition(text) =>
          AddTextKeepsRanked(nodes, rank, id, Text(text));
          nodes := nodes[id := nodes[id].(components := nodes[id].components + [Text(text)])];
        case ObjectCondition(shown) =>
          AddTextKeepsRanked(nodes, rank, id, Foreign(shown));
          nodes := nodes[id := nodes[id].(components := nodes[id].components + [Foreign(shown)])];
        case NodeCondition(c) =>
          var contains := false;
          if c != id {
            contains := IsChild(c, id);
          }
          if c == id || contains {
            return Failure("Recursion detected in added WhereConditon");
          }
          AddKeepsRanked(nodes, rank, id, c);
          rank := Lift(nodes, rank, id, c);
          nodes := nodes[id := nodes[id].(components := nodes[id].components + [Child(c)])];
      }
      r := Success(id);
    }

    /** `_isChild($object)`: a depth-first search of the components, stopping at the first hit. */
    method IsChild(from: nat, target: nat) returns (found: bool)
      requires Valid() && from < |nodes|
      ensures found == Descends(nodes, rank, from, target)
      decreases rank[from]
    {
      found := false;
      var components := nodes[from].components;
      for k := 0 to |components|
        invariant !found
        invariant Descends(nodes, rank, from, target) == DescendsFrom(nodes, rank, from, k, target)
      {
        match components[k] {
          case Text(_) =>
          case Foreign(_) =>
          case Child(c) =>
            assert nodes[from].components[k] == Child(c);
            if c == target {
              found := true;
              break;
            }
            found := IsChild(c, target);
            if found {
              break;
            }
        }
      }
    }

    /** `negate()`: set the flag; nothing else changes. */
    method Negate(id: nat)
      requires Valid() && id < |nodes|
      modifies this
      ensures Valid() && rank == old(rank)
      ensures nodes == old(nodes)[id := old(nodes)[id].(negated := true)]
    {
      var news := nodes[id := nodes[id].(negated := true)];
      assert forall i, k :: 0 <= i < |nodes| && 0 <= k < |nodes[i].components| ==>
        news[i].components[k] == nodes[i].components[k];
      nodes := news;
    }

    /** `getType()`: the glue. */
    function GetType(id: nat): (glue: string)
      reads this
      requires Valid() && id < |nodes|
      ensures IsGlue(Str(glue))
    {
      nodes[id].glue
    }

    /**
     * `__toString()` of condition `id`: its components in parentheses,
     * behind `NOT ` exactly when the condition is negated.
     */
    function ToString(id: nat): (s: string)
      reads this
      requires Valid() && id < |nodes|
      ensures s == Render(nodes, rank, id)
      ensures |s| >= 2 && s[|s| - 1] == ')'
      ensures nodes[id].negated <==> |s| >= 5 && s[..5] == "NOT ("
      ensures !nodes[id].negated ==> s[0] == '('
    {
      Render(nodes, rank, id)
    }
  }

  /** Negating twice is negating once. */
  lemma NegateIdempotent(nodes: seq<Node>, id: nat)
    requires id < |nodes|
    ensures var once := nodes[id := nodes[id].(negated := true)];
      once[id := once[id].(negated := true)] == once
  {
  }
}
