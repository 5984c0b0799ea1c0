/**
 * The evolution chain PokéAPI returns for a species, and its flattening into
 * one `{from, to, details}` record per parent→child edge, in depth-first
 * pre-order (`getEvolutionSteps` and its inner `processEvolvesTo`).
 *
 * The chain is an inductive datatype, so it is a finite tree by construction;
 * the walk needs no visited-set.
 */
module EvolutionChain {
  import opened Wrappers

  /**
   * One `evolution_details` entry, reduced to the fields the viewer reads.
   * The three named resources (`trigger`, `item`, `held_item`) are kept as
   * their `name`; a missing or `null` field is `None`.
   */
  datatype Details = Details(
    trigger: Option<string>,
    item: Option<string>,
    minLevel: Option<nat>,
    minHappiness: Option<nat>,
    heldItem: Option<string>)

  /** The empty object `{}` substituted when a link has no details. */
  const NoDetails: Details := Details(None, None, None, None, None)

  /** A chain link: a species, how it is reached, and what it evolves into. */
  datatype ChainLink = ChainLink(
    species: string,
    evolutionDetails: seq<Details>,
    evolvesTo: seq<ChainLink>)

  /** One flattened evolution: `from` evolves into `to` under `details`. */
  datatype Step = Step(from: string, to: string, details: Details)

  // ---------------------------------------------------------------------
  // The flattening
  // ---------------------------------------------------------------------

  /** `evolution_details[0] || {}`: the first entry, or the empty object when there is none. */
  function FirstDetails(link: ChainLink): (d: Details)
    ensures |link.evolutionDetails| > 0 ==> d == link.evolutionDetails[0]
    ensures link.evolutionDetails == [] ==> d == NoDetails
  {
    if |link.evolutionDetails| == 0 then NoDetails else link.evolutionDetails[0]
  }

  /**
   * `processEvolvesTo(link, fromName)`: the link's own record first, then its
   * subtree, one record per link of the tree rooted at `link`.
   */
  function LinkSteps(link: ChainLink, fromName: string): (r: seq<Step>)
    ensures |r| == Size(link)
    ensures r[0] == Step(fromName, link.species, FirstDetails(link))
  {
    [Step(fromName, link.species, FirstDetails(link))] + ChildSteps(link.evolvesTo, link.species)
  }

  /**
   * `links.forEach(l => processEvolvesTo(l, fromName))`: the blocks, in
   * sibling order, one record per link of the trees of `links`.
   */
  function ChildSteps(links: seq<ChainLink>, fromName: string): (r: seq<Step>)
    ensures |r| == ForestSize(links)
    ensures r == [] <==> links == []
  {
    if |links| == 0 then [] else LinkSteps(links[0], fromName) + ChildSteps(links[1..], fromName)
  }

  /**
   * `getEvolutionSteps(chain)`. A base form that evolves into nothing gives
   * no records; otherwise the first record leaves the base form towards its
   * first listed evolution.
   */
  function EvolutionSteps(chain: ChainLink): (steps: seq<Step>)
    ensures steps == [] <==> chain.evolvesTo == []
    ensures steps != [] ==> steps[0].from == chain.species && steps[0].to == chain.evolvesTo[0].species
  {
    var steps := ChildSteps(chain.evolvesTo, chain.species);
    if chain.evolvesTo == [] then steps
    else
      var first := chain.evolvesTo[0];
      assert steps == LinkSteps(first, chain.species) + ChildSteps(chain.evolvesTo[1..], chain.species);
      assert steps[0] == Step(chain.species, first.species, FirstDetails(first));
      steps
  }

  // ---------------------------------------------------------------------
  // Reference definitions of the tree's shape
  // ---------------------------------------------------------------------

  /** Number of links in the tree rooted at `link`. */
  function Size(link: ChainLink): nat {
    1 + ForestSize(link.evolvesTo)
  }

  /** Number of links in all the trees of `links`. */
  function ForestSize(links: seq<ChainLink>): nat {
    if |links| == 0 then 0 else Size(links[0]) + ForestSize(links[1..])
  }

  /** The record an edge from `parent` to its evolution `child` should produce. */
  function EdgeStep(parent: ChainLink, child: ChainLink): Step {
    Step(parent.species, child.species, FirstDetails(child))
  }

  /** `s` is the record of an edge leaving `t` itself. */
  predicate OwnEdge(t: ChainLink, s: Step) {
    exists i :: 0 <= i < |t.evolvesTo| && s == EdgeStep(t, t.evolvesTo[i])
  }

  /** `s` is the record of some edge of the tree rooted at `t`. */
  predicate IsEdgeStep(t: ChainLink, s: Step)
    decreases t
  {
    OwnEdge(t, s) || exists i :: 0 <= i < |t.evolvesTo| && IsEdgeStep(t.evolvesTo[i], s)
  }

  /** Some link strictly below `t` is of species `name`. */
  predicate SpeciesBelow(t: ChainLink, name: string)
    decreases t
  {
    exists i :: 0 <= i < |t.evolvesTo| &&
      (t.evolvesTo[i].species == name || SpeciesBelow(t.evolvesTo[i], name))
  }

  /**
   * Pre-order in terms of names: every record starts at the base form or at
   * a species an earlier record already reached.
   */
  predicate AncestorsFirst(steps: seq<Step>, root: string) {
    forall k :: 0 <= k < |steps| ==>
      steps[k].from == root || exists j :: 0 <= j < k && steps[j].to == steps[k].from
  }

  /** Both recursive positions of the walk hold fewer links. */
  lemma ForestSizeShrinks(links: seq<ChainLink>)
    requires |links| > 0
    ensures ForestSize(links[0].evolvesTo) < ForestSize(links)
    ensures ForestSize(links[1..]) < ForestSize(links)
  {
  }

  // ---------------------------------------------------------------------
  // Length
  // ---------------------------------------------------------------------

  /** One record per link below the base form, i.e. one per edge. */
  lemma StepCountIsEdgeCount(chain: ChainLink)
    ensures |EvolutionSteps(chain)| == Size(chain) - 1
  {
  }

  // ---------------------------------------------------------------------
  // Records are exactly the edges
  // ---------------------------------------------------------------------

  lemma {:induction false} ChildStepsMembers(links: seq<ChainLink>, fromName: string, s: Step)
    ensures s in ChildSteps(links, fromName) <==>
      exists i :: 0 <= i < |links| &&
        (s == Step(fromName, links[i].species, FirstDetails(links[i])) || IsEdgeStep(links[i], s))
    decreases ForestSize(links)
  {
    if |links| > 0 {
      var l0 := links[0];
      var rest := links[1..];
      var inner := ChildSteps(l0.evolvesTo, l0.species);
      var tail := ChildSteps(rest, fromName);
      assert ChildSteps(links, fromName) == [Step(fromName, l0.species, FirstDetails(l0))] + inner + tail;
      ForestSizeShrinks(links);
      ChildStepsMembers(l0.evolvesTo, l0.species, s);
      ChildStepsMembers(rest, fromName, s);
      assert s in inner <==> IsEdgeStep(l0, s) by {
        if s in inner {
          var i :| 0 <= i < |l0.evolvesTo| &&
            (s == Step(l0.species, l0.evolvesTo[i].species, FirstDetails(l0.evolvesTo[i])) || IsEdgeStep(l0.evolvesTo[i], s));
          if s == EdgeStep(l0, l0.evolvesTo[i]) {
            assert OwnEdge(l0, s);
          }
        }
        if IsEdgeStep(l0, s) {
          if OwnEdge(l0, s) {
            var i :| 0 <= i < |l0.evolvesTo| && s == EdgeStep(l0, l0.evolvesTo[i]);
            assert s == Step(l0.species, l0.evolvesTo[i].species, FirstDetails(l0.evolvesTo[i]));
          }
        }
      }
      if s in tail {
        var i :| 0 <= i < |rest| &&
          (s == Step(fromName, rest[i].species, FirstDetails(rest[i])) || IsEdgeStep(rest[i], s));
        assert rest[i] == links[i + 1];
      }
      if exists i :: 0 <= i < |links| &&
          (s == Step(fromName, links[i].species, FirstDetails(links[i])) || IsEdgeStep(links[i], s)) {
        var i :| 0 <= i < |links| &&
          (s == Step(fromName, links[i].species, FirstDetails(links[i])) || IsEdgeStep(links[i], s));
        if i > 0 {
          assert links[i] == rest[i - 1];
        }
      }
    }
  }

  /**
   * Every record is the record of an edge of the chain (its `from` is the
   * parent's species, its `to` the child's, its `details` the child's first
   * `evolution_details` entry or `{}`), and every edge has its record.
   */
  lemma StepsAreEdges(chain: ChainLink, s: Step)
    ensures s in EvolutionSteps(chain) <==> IsEdgeStep(chain, s)
  {
    ChildStepsMembers(chain.evolvesTo, chain.species, s);
    if IsEdgeStep(chain, s) && OwnEdge(chain, s) {
      var i :| 0 <= i < |chain.evolvesTo| && s == EdgeStep(chain, chain.evolvesTo[i]);
      assert s == Step(chain.species, chain.evolvesTo[i].species, FirstDetails(chain.evolvesTo[i]));
    }
    if s in EvolutionSteps(chain) {
      var i :| 0 <= i < |chain.evolvesTo| &&
        (s == Step(chain.species, chain.evolvesTo[i].species, FirstDetails(chain.evolvesTo[i]))
         || IsEdgeStep(chain.evolvesTo[i], s));
      if !IsEdgeStep(chain.evolvesTo[i], s) {
        assert OwnEdge(chain, s);
      }
    }
  }

  /** An edge record always arrives at a species strictly below the tree's root. */
  lemma {:induction false} EdgeTargetBelow(t: ChainLink, s: Step)
    requires IsEdgeStep(t, s)
    ensures SpeciesBelow(t, s.to)
    decreases t
  {
    if OwnEdge(t, s) {
      var i :| 0 <= i < |t.evolvesTo| && s == EdgeStep(t, t.evolvesTo[i]);
      assert t.evolvesTo[i].species == s.to;
    } else {
      var i :| 0 <= i < |t.evolvesTo| && IsEdgeStep(t.evolvesTo[i], s);
      EdgeTargetBelow(t.evolvesTo[i], s);
    }
  }

  /**
   * When the base form's name appears nowhere further down the chain (the
   * names of a chain are distinct), no record evolves into the base form.
   */
  lemma BaseFormNeverTarget(chain: ChainLink)
    requires !SpeciesBelow(chain, chain.species)
    ensures forall k :: 0 <= k < |EvolutionSteps(chain)| ==> EvolutionSteps(chain)[k].to != chain.species
  {
    var steps := EvolutionSteps(chain);
    forall k | 0 <= k < |steps| ensures steps[k].to != chain.species {
      StepsAreEdges(chain, steps[k]);
      EdgeTargetBelow(chain, steps[k]);
    }
  }

  // ---------------------------------------------------------------------
  // Order
  // ---------------------------------------------------------------------

  lemma {:induction false} ChildStepsAncestorsFirst(links: seq<ChainLink>, fromName: string)
    ensures AncestorsFirst(ChildSteps(links, fromName), fromName)
    decreases ForestSize(links)
  {
    if |links| > 0 {
      var l0 := links[0];
      var inner := ChildSteps(l0.evolvesTo, l0.species);
      var head := [Step(fromName, l0.species, FirstDetails(l0))] + inner;
      var tail := ChildSteps(links[1..], fromName);
      var steps := head + tail;
      assert steps == ChildSteps(links, fromName);
      ForestSizeShrinks(links);
      ChildStepsAncestorsFirst(l0.evolvesTo, l0.species);
      ChildStepsAncestorsFirst(links[1..], fromName);
      forall k | 0 <= k < |steps|
        ensures steps[k].from == fromName || exists j :: 0 <= j < k && steps[j].to == steps[k].from
      {
        if 0 < k < |head| {
          assert steps[k] == inner[k - 1];
          if inner[k - 1].from == l0.species {
            assert steps[0].to == steps[k].from;
          } else {
            var j :| 0 <= j < k - 1 && inner[j].to == inner[k - 1].from;
            assert steps[j + 1] == inner[j];
          }
        } else if k >= |head| {
          var k' := k - |head|;
          assert steps[k] == tail[k'];
          if tail[k'].from != fromName {
            var j :| 0 <= j < k' && tail[j].to == tail[k'].from;
            assert steps[j + |head|] == tail[j];
          }
        }
      }
    }
  }

  /**
   * Ancestor before descendant: every record leaves either the base form or
   * a species that an earlier record evolved into.
   */
  lemma StepsAncestorsFirst(chain: ChainLink)
    ensures AncestorsFirst(EvolutionSteps(chain), chain.species)
  {
    ChildStepsAncestorsFirst(chain.evolvesTo, chain.species);
  }

  /** Flattening a list of siblings is flattening each part in turn. */
  lemma {:induction false} ChildStepsAppend(a: seq<ChainLink>, b: seq<ChainLink>, fromName: string)
    ensures ChildSteps(a + b, fromName) == ChildSteps(a, fromName) + ChildSteps(b, fromName)
  {
    if |a| == 0 {
      assert a + b == b;
    } else {
      assert (a + b)[0] == a[0];
      assert (a + b)[1..] == a[1..] + b;
      ChildStepsAppend(a[1..], b, fromName);
      calc {
        ChildSteps(a + b, fromName);
        LinkSteps(a[0], fromName) + ChildSteps(a[1..] + b, fromName);
        LinkSteps(a[0], fromName) + (ChildSteps(a[1..], fromName) + ChildSteps(b, fromName));
        (LinkSteps(a[0], fromName) + ChildSteps(a[1..], fromName)) + ChildSteps(b, fromName);
      }
    }
  }

  /**
   * Pre-order, per link: the block a link contributes is its own record
   * followed by exactly the records of its subtree, `Size(link)` records in
   * all; and that block sits between the blocks of its earlier and later
   * siblings, so a whole subtree is emitted before the next sibling.
   */
  lemma SubtreeBlock(links: seq<ChainLink>, i: nat, fromName: string, s: Step)
    requires i < |links|
    ensures ChildSteps(links, fromName) ==
      ChildSteps(links[..i], fromName) + LinkSteps(links[i], fromName) + ChildSteps(links[i + 1..], fromName)
    ensures LinkSteps(links[i], fromName)[0] == Step(fromName, links[i].species, FirstDetails(links[i]))
    ensures |LinkSteps(links[i], fromName)| == Size(links[i])
    ensures IsEdgeStep(links[i], s) <==> s in LinkSteps(links[i], fromName)[1..]
  {
    var c := links[i];
    assert links == links[..i] + ([c] + links[i + 1..]);
    ChildStepsAppend(links[..i], [c] + links[i + 1..], fromName);
    ChildStepsAppend([c], links[i + 1..], fromName);
    assert ChildSteps([c], fromName) == LinkSteps(c, fromName) + ChildSteps([], fromName);
    assert LinkSteps(c, fromName)[1..] == ChildSteps(c.evolvesTo, c.species);
    ChildStepsMembers(c.evolvesTo, c.species, s);
    if IsEdgeStep(c, s) && OwnEdge(c, s) {
      var j :| 0 <= j < |c.evolvesTo| && s == EdgeStep(c, c.evolvesTo[j]);
      assert s == Step(c.species, c.evolvesTo[j].species, FirstDetails(c.evolvesTo[j]));
    }
    if s in ChildSteps(c.evolvesTo, c.species) {
      var j :| 0 <= j < |c.evolvesTo| &&
        (s == Step(c.species, c.evolvesTo[j].species, FirstDetails(c.evolvesTo[j]))
         || IsEdgeStep(c.evolvesTo[j], s));
      if !IsEdgeStep(c.evolvesTo[j], s) {
        assert OwnEdge(c, s);
      }
    }
  }
}
