/**
 A formatter serving a sequence of request bodies, one after another, from one
 pair of caches. The caches are an optimisation only: every response is the one
 the classifier alone prescribes, whatever was served before.
 */
module Session {
  import opened ClrTypes
  import opened Classifier
  import opened Formatter
  import Memo

  /** One body passing through the formatter. */
  datatype Request =
    | Write(declared: ClrType, value: Value)
    | Read(declared: ClrType)

  /** What the formatter hands to the base serializer for a request. */
  datatype Response =
    | Wrote(call: WriteCall)
    | ReadInto(target: ClrType)

  /** The type a request classifies. */
  function ClassifiedType(req: Request): ClrType {
    match req
    case Write(declared, value) => SerializedType(declared, value)
    case Read(declared) => declared
  }

  /** The response the classifier alone prescribes, with no cache involved. */
  function Expected(req: Request): Response {
    match req
    case Write(declared, value) => Wrote(WriteCallFor(declared, value))
    case Read(declared) => ReadInto(ReadTargetFor(declared))
  }

  /** Whether serving `req` builds a read-envelope type. */
  predicate BuildsReadEnvelope(req: Request) {
    req.Read? && ShouldEnvelope(req.declared)
  }

  /** Serves one request. A lookup that finds everything it needs already cached
      leaves both caches as they were. */
  function Step(f: Formatter, req: Request): (r: (Response, Formatter))
    ensures r.1.verdicts.Keys == f.verdicts.Keys + {ClassifiedType(req)}
    ensures Evolves(f, r.1)
    ensures Coherent(f) ==> Coherent(r.1) && r.0 == Expected(req)
    ensures Coherent(f) ==>
      r.1.envelopeTypes.Keys == f.envelopeTypes.Keys + (if BuildsReadEnvelope(req) then {req.declared} else {})
    ensures (&& Coherent(f) && ClassifiedType(req) in f.verdicts
             && (BuildsReadEnvelope(req) ==> req.declared in f.envelopeTypes)) ==> r.1 == f
  {
    match req
    case Write(declared, value) =>
      var (call, g) := WriteToStream(f, declared, value);
      (Wrote(call), g)
    case Read(declared) =>
      var (target, g) := ReadFromStream(f, declared);
      (ReadInto(target), g)
  }

  /** The types classified while serving `reqs`. */
  function ClassifiedTypes(reqs: seq<Request>): set<ClrType> {
    set i | 0 <= i < |reqs| :: ClassifiedType(reqs[i])
  }

  /** The types for which serving `reqs` builds a read-envelope type. */
  function ReadEnvelopeKeys(reqs: seq<Request>): set<ClrType> {
    set i | 0 <= i < |reqs| && BuildsReadEnvelope(reqs[i]) :: reqs[i].declared
  }

  /** Serves `reqs` in order, threading the caches from one request to the next.
      The verdict cache gains exactly the classified types and keeps every old
      entry. */
  function Serve(f: Formatter, reqs: seq<Request>): (r: (seq<Response>, Formatter))
    ensures |r.0| == |reqs|
    ensures r.1.verdicts.Keys == f.verdicts.Keys + ClassifiedTypes(reqs)
    ensures Evolves(f, r.1)
    decreases |reqs|
  {
    if reqs == [] then
      ([], f)
    else
      var (resp, g) := Step(f, reqs[0]);
      var (rest, h) := Serve(g, reqs[1..]);
      SplitFirst(reqs);
      Memo.GrowsTransitive(f.verdicts, g.verdicts, h.verdicts);
      Memo.GrowsTransitive(f.envelopeTypes, g.envelopeTypes, h.envelopeTypes);
      ([resp] + rest, h)
  }

  /** Serving `reqs` from coherent caches leaves them coherent. */
  lemma {:induction false} ServeKeepsCoherent(f: Formatter, reqs: seq<Request>)
    requires Coherent(f)
    ensures Coherent(Serve(f, reqs).1)
    decreases |reqs|
  {
    if reqs != [] {
      var g := Step(f, reqs[0]).1;
      ServeKeepsCoherent(g, reqs[1..]);
      assert Serve(f, reqs).1 == Serve(g, reqs[1..]).1;
    }
  }

  /** From coherent caches, serving `reqs` builds a read-envelope type exactly
      for the enveloped types it reads. */
  lemma {:induction false} ServeBuildsReadEnvelopes(f: Formatter, reqs: seq<Request>)
    requires Coherent(f)
    ensures Serve(f, reqs).1.envelopeTypes.Keys == f.envelopeTypes.Keys + ReadEnvelopeKeys(reqs)
    decreases |reqs|
  {
    if reqs != [] {
      var g := Step(f, reqs[0]).1;
      ServeBuildsReadEnvelopes(g, reqs[1..]);
      assert Serve(f, reqs).1 == Serve(g, reqs[1..]).1;
      SplitFirst(reqs);
    }
  }

  /** From coherent caches, every request is given its prescribed response. */
  lemma {:induction false} ServeAsPrescribed(f: Formatter, reqs: seq<Request>)
    requires Coherent(f)
    ensures forall i :: 0 <= i < |reqs| ==> Serve(f, reqs).0[i] == Expected(reqs[i])
    decreases |reqs|
  {
    if reqs != [] {
      var (resp, g) := Step(f, reqs[0]);
      ServeAsPrescribed(g, reqs[1..]);
      ConsMapped(reqs, resp, Serve(g, reqs[1..]).0, Expected);
    }
  }

  /** Prepending `e(xs[0])` to the images of the tail gives the images of `xs`. */
  lemma ConsMapped<A, B>(xs: seq<A>, y: B, ys: seq<B>, e: A -> B)
    requires |xs| > 0 && |ys| == |xs| - 1 && y == e(xs[0])
    requires forall i :: 0 <= i < |ys| ==> ys[i] == e(xs[1..][i])
    ensures forall i :: 0 <= i < |xs| ==> ([y] + ys)[i] == e(xs[i])
  {
    forall i | 0 < i < |xs|
      ensures ([y] + ys)[i] == e(xs[i])
    {
      assert xs[i] == xs[1..][i - 1];
    }
  }

  lemma SplitFirst(reqs: seq<Request>)
    requires |reqs| > 0
    ensures ClassifiedTypes(reqs) == {ClassifiedType(reqs[0])} + ClassifiedTypes(reqs[1..])
    ensures ReadEnvelopeKeys(reqs) ==
      (if BuildsReadEnvelope(reqs[0]) then {reqs[0].declared} else {}) + ReadEnvelopeKeys(reqs[1..])
  {
  }

  /** The caches of `f` already hold every entry that serving `reqs` looks up. */
  ghost predicate Warm(f: Formatter, reqs: seq<Request>) {
    ClassifiedTypes(reqs) <= f.verdicts.Keys && ReadEnvelopeKeys(reqs) <= f.envelopeTypes.Keys
  }

  /** Serving from warm coherent caches changes neither cache. */
  lemma {:induction false} WarmServeKeepsCaches(f: Formatter, reqs: seq<Request>)
    requires Coherent(f) && Warm(f, reqs)
    ensures Serve(f, reqs).1 == f
    decreases |reqs|
  {
    if reqs != [] {
      SplitFirst(reqs);
      assert Step(f, reqs[0]).1 == f;
      WarmServeKeepsCaches(f, reqs[1..]);
    }
  }

  /** Serving a sequence of bodies a second time gives the same responses and
      leaves the caches exactly as the first pass left them. */
  lemma ServingAgainChangesNothing(f: Formatter, reqs: seq<Request>)
    requires Coherent(f)
    ensures Serve(Serve(f, reqs).1, reqs) == Serve(f, reqs)
  {
    var (first, g) := Serve(f, reqs);
    ServeKeepsCoherent(f, reqs);
    ServeBuildsReadEnvelopes(f, reqs);
    assert Warm(g, reqs);
    WarmServeKeepsCaches(g, reqs);
    ServeAsPrescribed(f, reqs);
    ServeAsPrescribed(g, reqs);
    var (second, h) := Serve(g, reqs);
    assert first == second;
  }

  /** Whatever a process has served since start-up, its caches are coherent and
      every response it gave is the prescribed one. */
  lemma ServedFromStartAsPrescribed(reqs: seq<Request>)
    ensures Coherent(Serve(NewFormatter, reqs).1)
    ensures forall i :: 0 <= i < |reqs| ==> Serve(NewFormatter, reqs).0[i] == Expected(reqs[i])
    ensures Serve(NewFormatter, reqs).1.verdicts.Keys == ClassifiedTypes(reqs)
    ensures Serve(NewFormatter, reqs).1.envelopeTypes.Keys == ReadEnvelopeKeys(reqs)
  {
    assert Coherent(NewFormatter);
    ServeKeepsCoherent(NewFormatter, reqs);
    ServeAsPrescribed(NewFormatter, reqs);
    ServeBuildsReadEnvelopes(NewFormatter, reqs);
  }

  /** Serving the same request twice in a row gives the same response twice and
      leaves the caches as the first time left them. */
  lemma RepeatedRequestStable(f: Formatter, req: Request)
    ensures Step(Step(f, req).1, req) == Step(f, req)
  {
  }

  /** Two formatters with different cache histories answer a request alike:
      concurrent first lookups of one type all observe the same verdict. */
  lemma ResponseIndependentOfHistory(f: Formatter, g: Formatter, req: Request)
    requires Coherent(f) && Coherent(g)
    ensures Step(f, req).0 == Step(g, req).0
  {
  }
}
