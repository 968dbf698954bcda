/** Finding the handler for a sentence (StoryTesterImpl.findMethod): the class's own
    handlers in declaration order first, then its superclass, and so on up the chain. */
module Resolver {
  import opened Wrappers
  import opened Text
  import opened Sentences
  import opened Classes

  /** Found: the handler to run. NotFound: nothing in the chain matches (Java's
      WordNotFoundException). AnnotationWithoutSpace: a handler of the sentence's kind has
      annotation text without a space, so cutting it at its last space throws before
      any later handler is looked at. */
  datatype Resolution = Found(handler: Handler) | NotFound | AnnotationWithoutSpace

  /** The phrase an annotation stands for: its text before the last space, the word after it
      being the parameter placeholder. None when there is no space. */
  function AnnotationPhrase(annotation: string): (r: Option<string>)
    ensures r.None? ==> forall i :: 0 <= i < |annotation| ==> annotation[i] != ' '
    ensures r.Some? ==>
      |r.value| < |annotation| && annotation[|r.value|] == ' ' && r.value == annotation[..|r.value|]
      && forall j :: |r.value| < j < |annotation| ==> annotation[j] != ' '
  {
    match LastIndexOf(annotation, ' ')
    case None => None
    case Some(i) => Some(annotation[..i])
  }

  /** An annotation written as a phrase, a space and a placeholder word stands for that phrase. */
  lemma AnnotationPhraseOf(phrase: string, placeholder: string)
    requires Token(placeholder)
    ensures AnnotationPhrase(phrase + [' '] + placeholder) == Some(phrase)
  {
    var a := phrase + [' '] + placeholder;
    assert a[..|phrase|] == phrase;
    assert forall j :: |phrase| < j < |a| ==> a[j] == placeholder[j - |phrase| - 1];
    LastIndexOfAt(a, ' ', |phrase|);
  }

  /** The handler answers the sentence: same role, and its annotation stands for the phrase. */
  predicate Matches(h: Handler, s: Sentence) {
    h.role == s.kind && AnnotationPhrase(h.annotation) == Some(s.phrase)
  }

  /** Looking at the handler throws: same role, annotation without a space. */
  predicate Breaks(h: Handler, s: Sentence) {
    h.role == s.kind && AnnotationPhrase(h.annotation).None?
  }

  /** The scan goes past the handler: it neither matches nor throws. */
  predicate Skips(h: Handler, s: Sentence) {
    !Matches(h, s) && !Breaks(h, s)
  }

  /** The scan of one class's handlers in declaration order. */
  function FindIn(hs: seq<Handler>, s: Sentence): (r: Resolution)
    ensures r.NotFound? <==> forall i :: 0 <= i < |hs| ==> Skips(hs[i], s)
    ensures r.Found? ==> r.handler in hs && Matches(r.handler, s)
  {
    if |hs| == 0 then NotFound
    else if hs[0].role != s.kind then FindIn(hs[1..], s)
    else
      match AnnotationPhrase(hs[0].annotation)
      case None => AnnotationWithoutSpace
      case Some(p) => if p == s.phrase then Found(hs[0]) else FindIn(hs[1..], s)
  }

  /** The scan stops at the first handler it does not skip: that handler is returned when it
      matches, and the scan throws when it breaks. */
  lemma {:induction false} FindInFirstStop(hs: seq<Handler>, s: Sentence, k: nat)
    requires k < |hs| && !Skips(hs[k], s)
    requires forall j :: 0 <= j < k ==> Skips(hs[j], s)
    ensures Matches(hs[k], s) ==> FindIn(hs, s) == Found(hs[k])
    ensures Breaks(hs[k], s) ==> FindIn(hs, s) == AnnotationWithoutSpace
  {
    if k > 0 {
      assert Skips(hs[0], s);
      FindInFirstStop(hs[1..], s, k - 1);
    }
  }

  /** Scanning two lists one after the other is scanning their concatenation. */
  lemma {:induction false} FindInAppend(a: seq<Handler>, b: seq<Handler>, s: Sentence)
    ensures FindIn(a + b, s) == if FindIn(a, s).NotFound? then FindIn(b, s) else FindIn(a, s)
  {
    if |a| == 0 {
      assert a + b == b;
    } else {
      assert (a + b)[0] == a[0];
      assert (a + b)[1..] == a[1..] + b;
      FindInAppend(a[1..], b, s);
    }
  }

  /** findMethod: the class's own handlers, then the superclass chain. */
  function Resolve(c: Class, s: Sentence): (r: Resolution)
    ensures r.Found? ==> Matches(r.handler, s)
  {
    var own := FindIn(c.handlers, s);
    if !own.NotFound? then own
    else
      match c.parent
      case None => NotFound
      case Some(p) => Resolve(p, s)
  }

  /** The class followed by its superclasses, nearest first. */
  function Ancestry(c: Class): (r: seq<Class>)
    ensures |r| > 0 && r[0] == c
  {
    match c.parent
    case None => [c]
    case Some(p) => [c] + Ancestry(p)
  }

  /** All handlers of the chain, the class's own first, then each superclass's in turn. */
  function ChainHandlers(c: Class): (hs: seq<Handler>) {
    match c.parent
    case None => c.handlers
    case Some(p) => c.handlers + ChainHandlers(p)
  }

  /** Resolution is one scan over the whole chain, own handlers first: a match in the class
      shadows every match in its superclasses, and a superclass is consulted only when the
      class has nothing for the sentence. */
  lemma {:induction false} ResolveScansChain(c: Class, s: Sentence)
    ensures Resolve(c, s) == FindIn(ChainHandlers(c), s)
  {
    match c.parent
    case None =>
    case Some(p) =>
      ResolveScansChain(p, s);
      FindInAppend(c.handlers, ChainHandlers(p), s);
  }

  /** NotFound exactly when every handler of every class in the chain is passed over. */
  lemma {:induction false} ResolveNotFound(c: Class, s: Sentence)
    ensures Resolve(c, s).NotFound? <==>
      forall k, i :: 0 <= k < |Ancestry(c)| && 0 <= i < |Ancestry(c)[k].handlers| ==>
        Skips(Ancestry(c)[k].handlers[i], s)
  {
    var chain := Ancestry(c);
    match c.parent
    case None =>
    case Some(p) =>
      ResolveNotFound(p, s);
      assert chain == [c] + Ancestry(p);
      if Resolve(c, s).NotFound? {
        forall k, i | 0 <= k < |chain| && 0 <= i < |chain[k].handlers|
          ensures Skips(chain[k].handlers[i], s)
        {
          if k > 0 {
            assert chain[k] == Ancestry(p)[k - 1];
          }
        }
      } else if !FindIn(c.handlers, s).NotFound? {
        var i :| 0 <= i < |c.handlers| && !Skips(c.handlers[i], s);
        assert !Skips(chain[0].handlers[i], s);
      } else {
        var k, i :| 0 <= k < |Ancestry(p)| && 0 <= i < |Ancestry(p)[k].handlers|
          && !Skips(Ancestry(p)[k].handlers[i], s);
        assert chain[k + 1] == Ancestry(p)[k];
      }
  }
}
