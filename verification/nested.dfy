/** The fallback to nested classes (StoryTesterImpl.testOnNestedClasses): when the class
    and its superclasses have no handler for the first sentence, each nested class is
    tried in declaration order, recursively, and the first run that gets past the first
    sentence decides the outcome.

    The search is stated over any function giving a class's own outcome; the story run
    on the inheritance tree is the one testOnNestedClasses uses. */
module Nested {
  import opened Wrappers
  import opened Classes
  import opened Engine

  /** The run on c, falling back to its nested classes on GivenNotFound. */
  function Fallback(c: Class, direct: Class -> Outcome): (r: Outcome)
    ensures direct(c) != GivenNotFound ==> r == direct(c)
    decreases c, 1
  {
    if direct(c) != GivenNotFound then direct(c) else TryNested(c, 0, direct)
  }

  /** The loop over c's nested classes from the i-th on. */
  function TryNested(c: Class, i: nat, direct: Class -> Outcome): (o: Outcome)
    requires i <= |c.nested|
    decreases c, 0, |c.nested| - i
  {
    if i == |c.nested| then GivenNotFound
    else
      assert c.nested[i] in c.nested;
      var o := Fallback(c.nested[i], direct);
      if o != GivenNotFound then o else TryNested(c, i + 1, direct)
  }

  /** The story run on a class's own inheritance tree. */
  function DirectRun(story: Option<string>, invoke: Invoker): (run: Class -> Outcome) {
    k => TestOnInheritanceTree(story, Some(k), invoke)
  }

  /** testOnNestedClasses: a null class is refused by the inner call. */
  function TestOnNestedClasses(story: Option<string>, c: Option<Class>, invoke: Invoker): (r: Outcome)
    ensures story.None? || c.None? ==> r == IllegalArgument
    ensures TestOnInheritanceTree(story, c, invoke) != GivenNotFound ==> r == TestOnInheritanceTree(story, c, invoke)
    ensures r == GivenNotFound ==> TestOnInheritanceTree(story, c, invoke) == GivenNotFound
    ensures c.Some? ==> r == FirstDecisive(Outcomes(Preorder(c.value), DirectRun(story, invoke)))
  {
    if c.None? then TestOnInheritanceTree(story, None, invoke)
    else
      FallbackSearchesPreorder(c.value, DirectRun(story, invoke));
      Fallback(c.value, DirectRun(story, invoke))
  }

  /** c followed by its nested classes, each followed by its own, depth first. */
  function Preorder(c: Class): (r: seq<Class>)
    ensures |r| > 0 && r[0] == c
    decreases c, 1
  {
    [c] + PreorderFrom(c, 0)
  }

  function PreorderFrom(c: Class, i: nat): (cs: seq<Class>)
    requires i <= |c.nested|
    decreases c, 0, |c.nested| - i
  {
    if i == |c.nested| then []
    else
      assert c.nested[i] in c.nested;
      Preorder(c.nested[i]) + PreorderFrom(c, i + 1)
  }

  /** The outcome of each class on its own. */
  function Outcomes(cs: seq<Class>, direct: Class -> Outcome): (r: seq<Outcome>)
    ensures |r| == |cs| && forall k :: 0 <= k < |cs| ==> r[k] == direct(cs[k])
  {
    seq(|cs|, k requires 0 <= k < |cs| => direct(cs[k]))
  }

  lemma OutcomesAppend(a: seq<Class>, b: seq<Class>, direct: Class -> Outcome)
    ensures Outcomes(a + b, direct) == Outcomes(a, direct) + Outcomes(b, direct)
  {
  }

  /** A reference search: the first outcome that is not GivenNotFound; GivenNotFound
      when there is none. */
  function FirstDecisive(os: seq<Outcome>): (r: Outcome)
    ensures r == GivenNotFound <==> forall k :: 0 <= k < |os| ==> os[k] == GivenNotFound
    ensures r != GivenNotFound ==>
      exists k :: (0 <= k < |os| && r == os[k] && forall j :: 0 <= j < k ==> os[j] == GivenNotFound)
  {
    if |os| == 0 then GivenNotFound
    else if os[0] != GivenNotFound then os[0]
    else
      var rest := FirstDecisive(os[1..]);
      assert forall k :: 1 <= k < |os| ==> os[k] == os[1..][k - 1];
      rest
  }

  lemma {:induction false} FirstDecisiveAppend(a: seq<Outcome>, b: seq<Outcome>)
    ensures FirstDecisive(a + b)
      == (if FirstDecisive(a) != GivenNotFound then FirstDecisive(a) else FirstDecisive(b))
  {
    if |a| > 0 {
      FirstDecisiveAppend(a[1..], b);
      assert (a + b)[0] == a[0] && (a + b)[1..] == a[1..] + b;
    } else {
      assert a + b == b;
    }
  }

  /** The fallback is a depth-first search: its outcome is that of the first class in
      pre-order whose own run does not end with GivenNotFound. */
  lemma {:induction false} FallbackSearchesPreorder(c: Class, direct: Class -> Outcome)
    ensures Fallback(c, direct) == FirstDecisive(Outcomes(Preorder(c), direct))
    decreases c, 1
  {
    TryNestedSearches(c, 0, direct);
    var rest := PreorderFrom(c, 0);
    OutcomesAppend([c], rest, direct);
    FirstDecisiveAppend([direct(c)], Outcomes(rest, direct));
  }

  lemma {:induction false} TryNestedSearches(c: Class, i: nat, direct: Class -> Outcome)
    requires i <= |c.nested|
    ensures TryNested(c, i, direct) == FirstDecisive(Outcomes(PreorderFrom(c, i), direct))
    decreases c, 0, |c.nested| - i
  {
    if i < |c.nested| {
      assert c.nested[i] in c.nested;
      var head := Preorder(c.nested[i]);
      var tail := PreorderFrom(c, i + 1);
      FallbackSearchesPreorder(c.nested[i], direct);
      TryNestedSearches(c, i + 1, direct);
      assert PreorderFrom(c, i) == head + tail;
      OutcomesAppend(head, tail, direct);
      FirstDecisiveAppend(Outcomes(head, direct), Outcomes(tail, direct));
    } else {
      assert Outcomes(PreorderFrom(c, i), direct) == [];
    }
  }

  /** testOnNestedClasses ends with GivenNotFound exactly when every class of the nesting
      tree, on its own inheritance tree, does; otherwise it ends as the first class in
      pre-order that gets past the first sentence. */
  lemma NestedOutcome(story: Option<string>, c: Class, invoke: Invoker)
    ensures TestOnNestedClasses(story, Some(c), invoke) == GivenNotFound <==>
      forall k :: 0 <= k < |Preorder(c)| ==> TestOnInheritanceTree(story, Some(Preorder(c)[k]), invoke) == GivenNotFound
    ensures TestOnNestedClasses(story, Some(c), invoke) != GivenNotFound ==>
      exists k :: (0 <= k < |Preorder(c)|
        && TestOnNestedClasses(story, Some(c), invoke) == TestOnInheritanceTree(story, Some(Preorder(c)[k]), invoke)
        && forall j :: 0 <= j < k ==> TestOnInheritanceTree(story, Some(Preorder(c)[j]), invoke) == GivenNotFound)
  {
    FallbackSearchesPreorder(c, DirectRun(story, invoke));
  }
}
