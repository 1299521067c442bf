/**
 The tag editor of public/app.js: groups of tags rendered from the analysed segments, changed by
 removing tags and by dragging them between groups, and collected again into the route request.
 A document node is represented by its place in the lists.
 */
module TagEditor {
  import opened Selections
  import opened Wrappers
  import FanOut
  import RouteService

  type Tags = FanOut.Tags

  /** A group's heading number and its tags in order. */
  datatype Group = Group(title: nat, tags: seq<string>)

  datatype Op = Remove(g: nat, t: nat) | Drop(g: nat, t: nat, target: nat)

  // ----- the operations as functions -----

  /** One group per segment with tags, numbered from 1. */
  function Rendered(segments: seq<Tags>): (groups: seq<Group>) {
    if segments == [] then []
    else
      var last := |segments| - 1;
      var front := Rendered(segments[..last]);
      front + if RouteService.NonemptyTags(segments[last]) then [Group(|front| + 1, segments[last].value)] else []
  }

  function Renumbered(groups: seq<Group>): (r: seq<Group>) {
    seq(|groups|, i requires 0 <= i < |groups| => Group(i + 1, groups[i].tags))
  }

  predicate HasTag(groups: seq<Group>, g: nat, t: nat) {
    g < |groups| && t < |groups[g].tags|
  }

  function Without(tags: seq<string>, t: nat): (r: seq<string>)
    requires t < |tags|
  {
    tags[..t] + tags[t + 1..]
  }

  /** A group left without tags goes away and the others are renumbered. */
  function Tidied(groups: seq<Group>, g: nat): (r: seq<Group>)
    requires g < |groups|
  {
    if groups[g].tags == [] then Renumbered(groups[..g] + groups[g + 1..]) else groups
  }

  function Taken(groups: seq<Group>, g: nat, t: nat): (r: seq<Group>)
    requires HasTag(groups, g, t)
  {
    groups[g := groups[g].(tags := Without(groups[g].tags, t))]
  }

  function Grown(groups: seq<Group>, target: nat, tag: string): (r: seq<Group>)
    requires target < |groups|
  {
    groups[target := groups[target].(tags := groups[target].tags + [tag])]
  }

  function Removed(groups: seq<Group>, g: nat, t: nat): (r: seq<Group>)
    requires HasTag(groups, g, t)
  {
    Tidied(Taken(groups, g, t), g)
  }

  /** The dragged tag becomes the last one of the target group, which may be its own. */
  function Dropped(groups: seq<Group>, g: nat, t: nat, target: nat): (r: seq<Group>)
    requires HasTag(groups, g, t) && target < |groups|
  {
    Tidied(Grown(Taken(groups, g, t), target, groups[g].tags[t]), g)
  }

  predicate Enabled(groups: seq<Group>, op: Op) {
    HasTag(groups, op.g, op.t) && (op.Drop? ==> op.target < |groups|)
  }

  function Apply(groups: seq<Group>, op: Op): (r: seq<Group>)
    requires Enabled(groups, op)
  {
    match op
    case Remove(g, t) => Removed(groups, g, t)
    case Drop(g, t, target) => Dropped(groups, g, t, target)
  }

  datatype Session = Session(groups: seq<Group>, removed: multiset<string>)

  /** The groups after some operations, and the tags removed on the way. */
  function Run(start: seq<Group>, ops: seq<Op>): (r: Option<Session>) {
    if ops == [] then Some(Session(start, multiset{}))
    else
      var last := |ops| - 1;
      match Run(start, ops[..last])
      case None => None
      case Some(s) =>
        var op := ops[last];
        if !Enabled(s.groups, op) then None
        else Some(Session(
          Apply(s.groups, op),
          if op.Remove? then s.removed + multiset{s.groups[op.g].tags[op.t]} else s.removed))
  }

  function Payload(groups: seq<Group>): (tags: seq<seq<string>>) {
    seq(|groups|, i requires 0 <= i < |groups| => groups[i].tags)
  }

  // ----- the invariant and what is conserved -----

  predicate Tidy(groups: seq<Group>) {
    && (forall i | 0 <= i < |groups| :: groups[i].tags != [])
    && (forall i | 0 <= i < |groups| :: groups[i].title == i + 1)
  }

  /** All tags on display, with repetitions. */
  function TagsOf(groups: seq<Group>): (m: multiset<string>) {
    if groups == [] then multiset{} else multiset(groups[0].tags) + TagsOf(groups[1..])
  }

  function TagsOfSegments(segments: seq<Tags>): (m: multiset<string>) {
    if segments == [] then multiset{}
    else
      var last := |segments| - 1;
      TagsOfSegments(segments[..last]) +
      if segments[last].Some? then multiset(segments[last].value) else multiset{}
  }

  lemma {:induction false} TagsOfJoin(a: seq<Group>, b: seq<Group>)
    ensures TagsOf(a + b) == TagsOf(a) + TagsOf(b)
  {
    if a == [] {
      assert a + b == b;
    } else {
      assert (a + b)[1..] == a[1..] + b;
      TagsOfJoin(a[1..], b);
    }
  }

  lemma {:induction false} TagsOfRetitled(a: seq<Group>, b: seq<Group>)
    requires |a| == |b| && forall i | 0 <= i < |a| :: a[i].tags == b[i].tags
    ensures TagsOf(a) == TagsOf(b)
  {
    if a != [] {
      TagsOfRetitled(a[1..], b[1..]);
    }
  }

  lemma TagsOfSplit(groups: seq<Group>, g: nat)
    requires g < |groups|
    ensures TagsOf(groups) == TagsOf(groups[..g]) + (multiset(groups[g].tags) + TagsOf(groups[g + 1..]))
  {
    var after := [groups[g]] + groups[g + 1..];
    assert groups == groups[..g] + after;
    TagsOfJoin(groups[..g], after);
    assert after[1..] == groups[g + 1..];
  }

  lemma TagsOfUpdate(groups: seq<Group>, g: nat, x: Group)
    requires g < |groups|
    ensures TagsOf(groups[g := x]) + multiset(groups[g].tags) == TagsOf(groups) + multiset(x.tags)
  {
    var updated := groups[g := x];
    assert updated[..g] == groups[..g] && updated[g + 1..] == groups[g + 1..];
    TagsOfSplit(groups, g);
    TagsOfSplit(updated, g);
  }

  lemma TagsOfTidied(groups: seq<Group>, g: nat)
    requires g < |groups|
    ensures TagsOf(Tidied(groups, g)) == TagsOf(groups)
  {
    if groups[g].tags == [] {
      var kept := groups[..g] + groups[g + 1..];
      TagsOfSplit(groups, g);
      TagsOfJoin(groups[..g], groups[g + 1..]);
      TagsOfRetitled(kept, Renumbered(kept));
    }
  }

  lemma WithoutMultiset(tags: seq<string>, t: nat)
    requires t < |tags|
    ensures multiset(Without(tags, t)) + multiset{tags[t]} == multiset(tags)
  {
    assert tags == tags[..t] + [tags[t]] + tags[t + 1..];
  }

  /** Tidy, except that group g may have lost its last tag. */
  predicate AlmostTidy(groups: seq<Group>, g: nat) {
    && (forall i | 0 <= i < |groups| && i != g :: groups[i].tags != [])
    && (forall i | 0 <= i < |groups| :: groups[i].title == i + 1)
  }

  lemma TidiedIsTidy(groups: seq<Group>, g: nat)
    requires g < |groups| && AlmostTidy(groups, g)
    ensures Tidy(Tidied(groups, g))
  {
    if groups[g].tags == [] {
      var kept := groups[..g] + groups[g + 1..];
      forall i | 0 <= i < |kept|
        ensures kept[i].tags != []
      {
        assert kept[i] == groups[if i < g then i else i + 1];
      }
    }
  }

  lemma StepTidy(groups: seq<Group>, op: Op)
    requires Tidy(groups) && Enabled(groups, op)
    ensures Tidy(Apply(groups, op))
  {
    var taken := Taken(groups, op.g, op.t);
    assert AlmostTidy(taken, op.g);
    TidiedIsTidy(taken, op.g);
    if op.Drop? {
      var grown := Grown(taken, op.target, groups[op.g].tags[op.t]);
      assert AlmostTidy(grown, op.g);
      TidiedIsTidy(grown, op.g);
    }
  }

  lemma Cancel(a: multiset<string>, b: multiset<string>, c: multiset<string>, d: multiset<string>, x: multiset<string>)
    requires a + b == c + d && d + x == b
    ensures a + x == c
  {
    assert (a + x) + d == c + d;
    forall s
      ensures (a + x)[s] == c[s]
    {
      assert ((a + x) + d)[s] == (c + d)[s];
    }
  }

  lemma TakenTags(groups: seq<Group>, g: nat, t: nat)
    requires HasTag(groups, g, t)
    ensures TagsOf(Taken(groups, g, t)) + multiset{groups[g].tags[t]} == TagsOf(groups)
  {
    var rest := groups[g].(tags := Without(groups[g].tags, t));
    WithoutMultiset(groups[g].tags, t);
    TagsOfUpdate(groups, g, rest);
    var prior, gone := multiset(groups[g].tags), multiset{groups[g].tags[t]};
    Cancel(TagsOf(groups[g := rest]), prior, TagsOf(groups), multiset(rest.tags), gone);
  }

  lemma GrownTags(groups: seq<Group>, target: nat, tag: string)
    requires target < |groups|
    ensures TagsOf(Grown(groups, target, tag)) == TagsOf(groups) + multiset{tag}
  {
    var prior, grown := groups[target].tags, groups[target].(tags := groups[target].tags + [tag]);
    TagsOfUpdate(groups, target, grown);
    assert multiset(grown.tags) == multiset(prior) + multiset{tag};
    Cancel(TagsOf(groups), multiset(grown.tags), TagsOf(Grown(groups, target, tag)), multiset(prior), multiset{tag});
  }

  /** An operation keeps the groups tidy, and only a removal takes a tag away. */
  lemma StepKeeps(groups: seq<Group>, op: Op)
    requires Tidy(groups) && Enabled(groups, op)
    ensures Tidy(Apply(groups, op))
    ensures TagsOf(groups) == TagsOf(Apply(groups, op)) +
                              if op.Remove? then multiset{groups[op.g].tags[op.t]} else multiset{}
  {
    StepTidy(groups, op);
    var taken := Taken(groups, op.g, op.t);
    TakenTags(groups, op.g, op.t);
    TagsOfTidied(taken, op.g);
    if op.Drop? {
      GrownTags(taken, op.target, groups[op.g].tags[op.t]);
      TagsOfTidied(Grown(taken, op.target, groups[op.g].tags[op.t]), op.g);
    }
  }

  lemma {:induction false} RunKeeps(start: seq<Group>, ops: seq<Op>)
    requires Tidy(start) && Run(start, ops).Some?
    ensures Tidy(Run(start, ops).value.groups)
    ensures TagsOf(start) == TagsOf(Run(start, ops).value.groups) + Run(start, ops).value.removed
  {
    if ops != [] {
      var last := |ops| - 1;
      RunKeeps(start, ops[..last]);
      StepKeeps(Run(start, ops[..last]).value.groups, ops[last]);
    }
  }

  lemma {:induction false} RenderedTags(segments: seq<Tags>)
    ensures TagsOf(Rendered(segments)) == TagsOfSegments(segments)
  {
    if segments != [] {
      var last := |segments| - 1;
      var front := Rendered(segments[..last]);
      RenderedTags(segments[..last]);
      if RouteService.NonemptyTags(segments[last]) {
        var group := Group(|front| + 1, segments[last].value);
        TagsOfJoin(front, [group]);
        assert TagsOf([group]) == multiset(group.tags);
      } else {
        assert Rendered(segments) == front;
      }
    }
  }

  lemma HasTagsSnoc(segments: seq<Tags>)
    requires segments != []
    ensures var last := |segments| - 1;
            RouteService.HasTags(segments) <==>
            RouteService.HasTags(segments[..last]) || RouteService.NonemptyTags(segments[last])
  {
    var last := |segments| - 1;
    assert forall i | 0 <= i < last :: segments[i] == segments[..last][i];
  }

  lemma {:induction false} RenderedTidy(segments: seq<Tags>)
    ensures Tidy(Rendered(segments))
    ensures Rendered(segments) != [] <==> RouteService.HasTags(segments)
  {
    if segments != [] {
      var last := |segments| - 1;
      RenderedTidy(segments[..last]);
      HasTagsSnoc(segments);
    }
  }

  /** Groups numbered from 1 for the chosen segments. */
  function Numbered(segments: seq<Tags>, idx: seq<nat>): (r: seq<Group>)
    requires forall j | 0 <= j < |idx| :: idx[j] < |segments| && RouteService.NonemptyTags(segments[idx[j]])
  {
    seq(|idx|, j requires 0 <= j < |idx| =>
      assert RouteService.NonemptyTags(segments[idx[j]]);
      Group(j + 1, segments[idx[j]].value))
  }

  function Chosen(segments: seq<Tags>, n: nat): (idx: seq<nat>)
    requires n <= |segments|
    ensures forall j | 0 <= j < |idx| :: idx[j] < |segments| && RouteService.NonemptyTags(segments[idx[j]])
  {
    SelectionExact(segments, n, RouteService.NonemptyTags);
    Positions(segments, n, RouteService.NonemptyTags)
  }

  lemma {:induction false} RenderedPrefix(segments: seq<Tags>, n: nat)
    requires n <= |segments|
    ensures Rendered(segments[..n]) == Numbered(segments, Chosen(segments, n))
  {
    if n > 0 {
      RenderedPrefix(segments, n - 1);
      assert segments[..n][..n - 1] == segments[..n - 1];
    }
  }

  /** The editor opens with the segments that have tags, in order and with their tags in order. */
  lemma RenderedExact(segments: seq<Tags>)
    ensures IsSelection(segments, |segments|, RouteService.NonemptyTags, Chosen(segments, |segments|))
    ensures Rendered(segments) == Numbered(segments, Chosen(segments, |segments|))
    ensures var idx := Chosen(segments, |segments|);
            |Rendered(segments)| == |idx| &&
            forall j | 0 <= j < |idx| :: Rendered(segments)[j] == Group(j + 1, segments[idx[j]].value)
  {
    SelectionExact(segments, |segments|, RouteService.NonemptyTags);
    RenderedPrefix(segments, |segments|);
    assert segments[..|segments|] == segments;
  }

  /**
   Dragging a tag to another group and back is dragging it within its own group, as long as the group
   is not left empty meanwhile: nothing else has moved.
   */
  lemma DropBack(groups: seq<Group>, g: nat, t: nat, target: nat)
    requires Tidy(groups) && HasTag(groups, g, t) && target < |groups| && g != target && |groups[g].tags| > 1
    ensures var there := Apply(groups, Drop(g, t, target));
            && Enabled(there, Drop(target, |groups[target].tags|, g))
            && Apply(there, Drop(target, |groups[target].tags|, g)) == Apply(groups, Drop(g, t, g))
  {
    var tag := groups[g].tags[t];
    var taken := Taken(groups, g, t);
    var there := Grown(taken, target, tag);
    assert Apply(groups, Drop(g, t, target)) == there;
    var k := |groups[target].tags|;
    assert Without(there[target].tags, k) == groups[target].tags;
    assert Taken(there, target, k) == taken;
  }

  lemma {:induction false} RunNeverAdds(start: seq<Group>, ops: seq<Op>)
    requires Run(start, ops).Some?
    ensures |Run(start, ops).value.groups| <= |start|
  {
    if ops != [] {
      RunNeverAdds(start, ops[..|ops| - 1]);
    }
  }

  predicate Reaches(start: seq<Group>, ops: seq<Op>, groups: seq<Group>) {
    Run(start, ops).Some? && Run(start, ops).value.groups == groups
  }

  /** Some operations bring the tag back exactly when the drag left its group another tag. */
  lemma DropBackIff(groups: seq<Group>, g: nat, t: nat, target: nat)
    requires Tidy(groups) && HasTag(groups, g, t) && target < |groups| && g != target
    ensures var there := Apply(groups, Drop(g, t, target));
            (exists ops :: Reaches(there, ops, Apply(groups, Drop(g, t, g)))) <==> |groups[g].tags| > 1
  {
    var there, same := Apply(groups, Drop(g, t, target)), Apply(groups, Drop(g, t, g));
    if |groups[g].tags| > 1 {
      DropBack(groups, g, t, target);
      var back := Drop(target, |groups[target].tags|, g);
      assert [back][..0] == [];
      assert Run(there, []) == Some(Session(there, multiset{}));
      assert Reaches(there, [back], same);
    } else {
      assert |there| < |groups| == |same|;
      forall ops
        ensures !Reaches(there, ops, same)
      {
        if Run(there, ops).Some? {
          RunNeverAdds(there, ops);
        }
      }
    }
  }

  /**
   In every run of the editor no group is empty, the headings are 1 to n in order, and the tags shown
   are those of the analysis minus the removed ones.
   */
  lemma EditorSession(segments: seq<Tags>, ops: seq<Op>)
    requires Run(Rendered(segments), ops).Some?
    ensures var s := Run(Rendered(segments), ops).value;
            Tidy(s.groups) && TagsOfSegments(segments) == TagsOf(s.groups) + s.removed
  {
    RenderedTidy(segments);
    RenderedTags(segments);
    RunKeeps(Rendered(segments), ops);
  }

  lemma {:induction false} NoTagsNoGroups(groups: seq<Group>)
    requires Tidy(groups)
    ensures TagsOf(groups) == multiset{} <==> groups == []
  {
    if groups != [] {
      assert groups[0].tags[0] in multiset(groups[0].tags);
      assert groups[0].tags[0] in TagsOf(groups);
    }
  }

  /** The request never names an empty tag list, and is empty exactly when every tag was removed. */
  lemma PayloadNonempty(segments: seq<Tags>, ops: seq<Op>)
    requires Run(Rendered(segments), ops).Some?
    ensures var s := Run(Rendered(segments), ops).value;
            && (forall i | 0 <= i < |Payload(s.groups)| :: Payload(s.groups)[i] != [])
            && (Payload(s.groups) == [] <==> s.removed == TagsOfSegments(segments))
  {
    EditorSession(segments, ops);
    var s := Run(Rendered(segments), ops).value;
    NoTagsNoGroups(s.groups);
    assert Payload(s.groups) == [] <==> s.groups == [];
    if s.removed == TagsOfSegments(segments) {
      assert |TagsOf(s.groups)| + |s.removed| == |TagsOfSegments(segments)|;
    }
  }

  // ----- what stays where it is -----

  /** The lists after one of them has lost its tag t: it goes if that was the last one, the others stay. */
  function WithoutTag(lists: seq<seq<string>>, g: nat, t: nat): (r: seq<seq<string>>)
    requires g < |lists| && t < |lists[g]|
  {
    if |lists[g]| == 1 then lists[..g] + lists[g + 1..]
    else lists[g := lists[g][..t] + lists[g][t + 1..]]
  }

  lemma PayloadOf(groups: seq<Group>, lists: seq<seq<string>>)
    requires |groups| == |lists| && forall i | 0 <= i < |groups| :: groups[i].tags == lists[i]
    ensures Payload(groups) == lists
  {
  }

  lemma TidiedPayload(groups: seq<Group>, g: nat)
    requires g < |groups|
    ensures Payload(Tidied(groups, g)) ==
            if groups[g].tags == [] then Payload(groups)[..g] + Payload(groups)[g + 1..] else Payload(groups)
  {
    if groups[g].tags == [] {
      PayloadOf(Tidied(groups, g), Payload(groups)[..g] + Payload(groups)[g + 1..]);
    }
  }

  /** Removing a tag. */
  lemma RemoveSpelled(groups: seq<Group>, g: nat, t: nat)
    requires HasTag(groups, g, t)
    ensures Payload(Apply(groups, Remove(g, t))) == WithoutTag(Payload(groups), g, t)
  {
    var tags := groups[g].tags;
    var taken := Taken(groups, g, t);
    PayloadOf(taken, Payload(groups)[g := tags[..t] + tags[t + 1..]]);
    TidiedPayload(taken, g);
  }

  /** Dragging a tag to another group: it becomes the last one there. */
  lemma DropSpelled(groups: seq<Group>, g: nat, t: nat, target: nat)
    requires HasTag(groups, g, t) && target < |groups| && g != target
    ensures var lists := Payload(groups);
            Payload(Apply(groups, Drop(g, t, target))) ==
            WithoutTag(lists[target := lists[target] + [lists[g][t]]], g, t)
  {
    var lists, tags := Payload(groups), groups[g].tags;
    var grown := Grown(Taken(groups, g, t), target, tags[t]);
    PayloadOf(grown, lists[target := lists[target] + [tags[t]]][g := tags[..t] + tags[t + 1..]]);
    TidiedPayload(grown, g);
  }

  /** Dragging a tag within its group: it becomes the last one. */
  lemma DropWithinSpelled(groups: seq<Group>, g: nat, t: nat)
    requires HasTag(groups, g, t)
    ensures var tags := groups[g].tags;
            Payload(Apply(groups, Drop(g, t, g))) == Payload(groups)[g := tags[..t] + tags[t + 1..] + [tags[t]]]
  {
    var tags := groups[g].tags;
    var grown := Grown(Taken(groups, g, t), g, tags[t]);
    PayloadOf(grown, Payload(groups)[g := tags[..t] + tags[t + 1..] + [tags[t]]]);
    TidiedPayload(grown, g);
  }

  /** Increasing positions below n. */
  predicate IsIncreasing(pos: seq<nat>, n: nat) {
    (forall j | 0 <= j < |pos| :: pos[j] < n) && forall i, j | 0 <= i < j < |pos| :: pos[i] < pos[j]
  }

  predicate IsPart(part: seq<string>, whole: seq<string>, pos: seq<nat>) {
    |pos| == |part| && IsIncreasing(pos, |whole|) && forall j | 0 <= j < |part| :: part[j] == whole[pos[j]]
  }

  /** The tags of `part` are in `whole`, in the same order. */
  ghost predicate Subsequence(part: seq<string>, whole: seq<string>) {
    exists pos :: IsPart(part, whole, pos)
  }

  /** The lists of `after` are what is left of the lists of `before` at these positions. */
  ghost predicate IsRest(before: seq<seq<string>>, after: seq<seq<string>>, pos: seq<nat>) {
    && |pos| == |after| && IsIncreasing(pos, |before|)
    && forall j | 0 <= j < |after| :: Subsequence(after[j], before[pos[j]])
  }

  lemma SubsequenceSelf(tags: seq<string>)
    ensures Subsequence(tags, tags)
  {
    assert IsPart(tags, tags, seq(|tags|, j requires 0 <= j => j));
  }

  lemma SubsequenceWithout(tags: seq<string>, t: nat)
    requires t < |tags|
    ensures Subsequence(tags[..t] + tags[t + 1..], tags)
  {
    var pos := seq(|tags| - 1, j requires 0 <= j => if j < t then j else j + 1);
    assert IsPart(tags[..t] + tags[t + 1..], tags, pos);
  }

  function Composed(outer: seq<nat>, inner: seq<nat>): (pos: seq<nat>)
    requires IsIncreasing(inner, |outer|)
  {
    seq(|inner|, j requires 0 <= j < |inner| => outer[inner[j]])
  }

  lemma SubsequenceTransitive(a: seq<string>, b: seq<string>, c: seq<string>)
    requires Subsequence(a, b) && Subsequence(b, c)
    ensures Subsequence(a, c)
  {
    var inner :| IsPart(a, b, inner);
    var outer :| IsPart(b, c, outer);
    assert IsPart(a, c, Composed(outer, inner));
  }

  lemma RestTransitive(a: seq<seq<string>>, b: seq<seq<string>>, c: seq<seq<string>>, outer: seq<nat>, inner: seq<nat>)
    requires IsRest(a, b, outer) && IsRest(b, c, inner)
    ensures IsRest(a, c, Composed(outer, inner))
  {
    var pos := Composed(outer, inner);
    forall j | 0 <= j < |c|
      ensures Subsequence(c[j], a[pos[j]])
    {
      SubsequenceTransitive(c[j], b[inner[j]], a[pos[j]]);
    }
  }

  lemma RestWithoutTag(lists: seq<seq<string>>, g: nat, t: nat) returns (pos: seq<nat>)
    requires g < |lists| && t < |lists[g]|
    ensures IsRest(lists, WithoutTag(lists, g, t), pos)
  {
    var after := WithoutTag(lists, g, t);
    pos := seq(|after|, j requires 0 <= j => if |lists[g]| == 1 && j >= g then j + 1 else j);
    forall j | 0 <= j < |after|
      ensures Subsequence(after[j], lists[pos[j]])
    {
      SubsequenceSelf(lists[pos[j]]);
      SubsequenceWithout(lists[g], t);
    }
  }

  /**
   However many tags are removed, the lists that are left come in the order in which they were, and so do
   the tags in each of them.
   */
  lemma {:induction false} RemovalsKeepOrder(start: seq<Group>, ops: seq<Op>) returns (pos: seq<nat>)
    requires Run(start, ops).Some? && forall k | 0 <= k < |ops| :: ops[k].Remove?
    ensures IsRest(Payload(start), Payload(Run(start, ops).value.groups), pos)
  {
    if ops == [] {
      pos := seq(|start|, j requires 0 <= j => j);
      forall j | 0 <= j < |start|
        ensures Subsequence(Payload(start)[j], Payload(start)[pos[j]])
      {
        SubsequenceSelf(Payload(start)[j]);
      }
    } else {
      var last := |ops| - 1;
      var outer := RemovalsKeepOrder(start, ops[..last]);
      var groups := Run(start, ops[..last]).value.groups;
      var inner := RestWithoutTag(Payload(groups), ops[last].g, ops[last].t);
      RemoveSpelled(groups, ops[last].g, ops[last].t);
      var after := Payload(Run(start, ops).value.groups);
      RestTransitive(Payload(start), Payload(groups), after, outer, inner);
      pos := Composed(outer, inner);
    }
  }

  // ----- the editor itself -----

  class Editor {
    var groups: seq<Group>

    constructor ()
      ensures groups == []
    {
      groups := [];
    }

    method RenderTagEditor(segments: seq<Tags>)
      modifies this
      ensures groups == Rendered(segments) && Tidy(groups)
    {
      groups := [];
      var renderedIndex := 1;
      for i := 0 to |segments|
        invariant groups == Rendered(segments[..i]) && renderedIndex == |groups| + 1
      {
        assert segments[..i + 1][..i] == segments[..i];
        if segments[i].Some? && |segments[i].value| > 0 {
          groups := groups + [Group(renderedIndex, segments[i].value)];
          renderedIndex := renderedIndex + 1;
        }
      }
      assert segments[..|segments|] == segments;
      RenderedTidy(segments);
    }

    method UpdatePlaceIndices()
      modifies this
      ensures groups == Renumbered(old(groups))
    {
      ghost var before := groups;
      for i := 0 to |groups|
        invariant |groups| == |before|
        invariant forall j | 0 <= j < |groups| :: groups[j].tags == before[j].tags
        invariant forall j | 0 <= j < i :: groups[j].title == j + 1
      {
        groups := groups[i := groups[i].(title := i + 1)];
      }
    }

    /** What both handlers do with the list a tag has just left. */
    method DropEmptyGroup(g: nat)
      requires g < |groups|
      modifies this
      ensures groups == Tidied(old(groups), g)
    {
      if |groups[g].tags| == 0 {
        groups := groups[..g] + groups[g + 1..];
        UpdatePlaceIndices();
      }
    }

    method RemoveTag(g: nat, t: nat)
      requires Tidy(groups) && Enabled(groups, Remove(g, t))
      modifies this
      ensures groups == Apply(old(groups), Remove(g, t)) && Tidy(groups)
    {
      StepKeeps(groups, Remove(g, t));
      groups := groups[g := groups[g].(tags := groups[g].tags[..t] + groups[g].tags[t + 1..])];
      DropEmptyGroup(g);
    }

    /** Without a dragged tag a drop does nothing. */
    method HandleDrop(dragged: Option<(nat, nat)>, target: nat)
      requires Tidy(groups) && (dragged.Some? ==> Enabled(groups, Drop(dragged.value.0, dragged.value.1, target)))
      modifies this
      ensures Tidy(groups)
      ensures groups == if dragged.Some?
                        then Apply(old(groups), Drop(dragged.value.0, dragged.value.1, target))
                        else old(groups)
    {
      if dragged.Some? {
        var (g, t) := dragged.value;
        StepKeeps(groups, Drop(g, t, target));
        var tag := groups[g].tags[t];
        groups := groups[g := groups[g].(tags := groups[g].tags[..t] + groups[g].tags[t + 1..])];
        groups := groups[target := groups[target].(tags := groups[target].tags + [tag])];
        DropEmptyGroup(g);
      }
    }

    /** The tag lists of the request, read off the groups. */
    method CollectSegments() returns (newSegments: seq<seq<string>>)
      ensures newSegments == Payload(groups)
      ensures |newSegments| == |groups| && forall i | 0 <= i < |groups| :: newSegments[i] == groups[i].tags
    {
      newSegments := [];
      for i := 0 to |groups|
        invariant newSegments == Payload(groups[..i])
      {
        var tags := [];
        for j := 0 to |groups[i].tags|
          invariant tags == groups[i].tags[..j]
        {
          tags := tags + [groups[i].tags[j]];
        }
        assert tags == groups[i].tags;
        assert Payload(groups[..i + 1]) == Payload(groups[..i]) + [groups[i].tags];
        newSegments := newSegments + [tags];
      }
      assert groups[..|groups|] == groups;
    }
  }
}
