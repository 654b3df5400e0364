/** What one run of the notifier does, as pure functions: which topic it
    uses, what it publishes for each key prefix, and the two counters it
    reports per prefix (S3Notify.run). The imperative class in module Notify
    is proved to do exactly this. */
module Dispatch {
  import opened JavaLang
  import opened EventNames
  import opened TopicMatching
  import opened Message

  /** The command-line options. `prefixes` is the list getPrefixes returns:
      the lines of the prefix file, or the single `--prefix` value. */
  datatype Options = Options(
    bucket: string,
    prefixes: seq<string>,
    matchPattern: Option<string>,
    event: string,
    region: string,
    destinations: seq<DestinationType>,
    skipS3Validation: bool,
    verbose: bool,
    debug: bool)

  /** One listed S3 object. */
  datatype S3Object = S3Object(key: string, size: long, eTag: string)

  /** One page of a ListObjectsV2 listing. */
  datatype Page = Page(contents: seq<S3Object>)

  /** The outside world as the notifier sees it: the notification
      configuration of a bucket, the pages listed for a bucket and prefix,
      whether a key fully matches a regular expression (String.matches), and
      the LocalDateTime.now() text read when the n-th message is built. */
  datatype Environment = Environment(
    notificationConfiguration: string -> NotificationConfiguration,
    listObjects: (string, string) -> seq<Page>,
    keyMatches: (string, string) -> bool,
    clock: nat -> string)

  /** One sns.publish call. */
  datatype Publish = Publish(topicArn: string, message: string)

  /** The touch and skip counters of one prefix. */
  datatype PrefixReport = PrefixReport(prefix: string, touched: nat, skipped: nat)

  /** What a prefix reports and publishes. */
  datatype PrefixStep = PrefixStep(report: PrefixReport, published: seq<Publish>)

  /** How a run ends: the early return when no topic matched, normally with
      the report of every prefix, or by an exception after the reports of
      the prefixes finished before it. */
  datatype RunOutcome =
    | NothingToDo
    | Completed(reports: seq<PrefixReport>)
    | Failed(exception: JavaException, reports: seq<PrefixReport>)

  /** A run's outcome and the messages it published, in order. */
  datatype RunResult = RunResult(outcome: RunOutcome, published: seq<Publish>)

  /** The objects of all pages, in listing order. */
  function Flatten(pages: seq<Page>): seq<S3Object>
  {
    if pages == [] then [] else Flatten(pages[..|pages| - 1]) + pages[|pages| - 1].contents
  }

  /** Whether an object is processed rather than skipped: there is no
      `--match`, or its key fully matches it. */
  predicate Eligible(o: Options, env: Environment, x: S3Object) {
    o.matchPattern.None? || env.keyMatches(x.key, o.matchPattern.value)
  }

  /** The eligible objects, in order. */
  function Selected(o: Options, env: Environment, objs: seq<S3Object>): seq<S3Object>
  {
    if objs == [] then []
    else
      var rest := Selected(o, env, objs[..|objs| - 1]);
      if Eligible(o, env, objs[|objs| - 1]) then rest + [objs[|objs| - 1]] else rest
  }

  /** The number of objects skipped because their key does not match. */
  function Skipped(o: Options, env: Environment, objs: seq<S3Object>): nat
  {
    if objs == [] then 0
    else Skipped(o, env, objs[..|objs| - 1]) + (if Eligible(o, env, objs[|objs| - 1]) then 0 else 1)
  }

  /** The message sendNotificationToSns publishes for an object when n
      messages were published before it. */
  function MessageFor(o: Options, env: Environment, topicArn: string, x: S3Object, n: nat): Publish
  {
    Publish(topicArn, CreateMessageFromTemplate(o.region, env.clock(n), o.event, o.bucket, x.key, x.size, x.eTag))
  }

  /** The messages for objs, one each in order, numbered from n. */
  function Messages(o: Options, env: Environment, topicArn: string, objs: seq<S3Object>, n: nat): (r: seq<Publish>)
    ensures |r| == |objs|
  {
    seq(|objs|, k requires 0 <= k < |objs| => MessageFor(o, env, topicArn, objs[k], n + k))
  }

  /** The object a prefix stands for when S3 is not consulted: the prefix is
      taken as the key, with mock size 100 and eTag "123". */
  function MockObject(prefix: string): S3Object {
    S3Object(prefix, 100, "123")
  }

  /** The counters and messages of a prefix whose listing gave objs: every
      eligible object is published when there is a topic, every other one
      is counted as skipped. */
  function ValidatedStep(o: Options, env: Environment, topic: Option<string>, prefix: string,
                         objs: seq<S3Object>, n: nat): PrefixStep
  {
    var selected := Selected(o, env, objs);
    if topic.Some? then
      PrefixStep(PrefixReport(prefix, |selected|, Skipped(o, env, objs)), Messages(o, env, topic.value, selected, n))
    else
      PrefixStep(PrefixReport(prefix, 0, Skipped(o, env, objs)), [])
  }

  /** The body of the prefix loop for one prefix, n messages having been
      published before it. Without validation it publishes the mock object
      to the topic and calls `optTopicArn.get()`, which throws when no topic
      was found; otherwise it lists the prefix. */
  function PrefixRun(o: Options, env: Environment, topic: Option<string>, prefix: string, n: nat): Result<PrefixStep>
  {
    if o.skipS3Validation then
      if topic.None? then Thrown(NoSuchElement)
      else Ok(PrefixStep(PrefixReport(prefix, 1, 0), Messages(o, env, topic.value, [MockObject(prefix)], n)))
    else
      Ok(ValidatedStep(o, env, topic, prefix, Flatten(env.listObjects(o.bucket, prefix)), n))
  }

  /** The reports and messages of the prefix loop over ps, up to the first
      exception, if any. */
  datatype Progress = Progress(reports: seq<PrefixReport>, published: seq<Publish>, failure: Option<JavaException>)

  /** The loop state after one more prefix whose body ended in step. */
  function Extend(before: Progress, step: Result<PrefixStep>): Progress
  {
    if step.Thrown? then Progress(before.reports, before.published, Some(step.exception))
    else Progress(before.reports + [step.value.report], before.published + step.value.published, None)
  }

  function PrefixesRun(o: Options, env: Environment, topic: Option<string>, ps: seq<string>, n: nat): Progress
  {
    if ps == [] then Progress([], [], None)
    else
      var before := PrefixesRun(o, env, topic, ps[..|ps| - 1], n);
      if before.failure.Some? then before
      else Extend(before, PrefixRun(o, env, topic, ps[|ps| - 1], n + |before.published|))
  }

  /** The topic run() looks up for the options. */
  function RunTopic(o: Options, env: Environment, eventPrefix: string): Option<string>
  {
    SelectTopic(o.destinations, env.notificationConfiguration(o.bucket), eventPrefix, ExtractEventSuffix(o.event))
  }

  /** A whole run, n messages having been published before it. */
  function RunSpec(o: Options, env: Environment, n: nat): RunResult
  {
    match ExtractEventPrefix(o.event)
    case Thrown(e) => RunResult(Failed(e, []), [])
    case Ok(eventPrefix) =>
      var topic := RunTopic(o, env, eventPrefix);
      if SNS in o.destinations && topic.None? then RunResult(NothingToDo, [])
      else
        var progress := PrefixesRun(o, env, topic, o.prefixes, n);
        if progress.failure.Some? then RunResult(Failed(progress.failure.value, progress.reports), progress.published)
        else RunResult(Completed(progress.reports), progress.published)
  }

  // ---------------------------------------------------------------------
  // Listing and matching

  /** Pages are read one after another. */
  lemma {:induction false} FlattenAppend(a: seq<Page>, b: seq<Page>)
    ensures Flatten(a + b) == Flatten(a) + Flatten(b)
    decreases |b|
  {
    if b == [] {
      assert a + b == a;
    } else {
      var b' := b[..|b| - 1];
      assert (a + b)[..|a + b| - 1] == a + b';
      assert (a + b)[|a + b| - 1] == b[|b| - 1];
      FlattenAppend(a, b');
    }
  }

  /** The processed objects keep their listing order across any split of
      the listing, so messages follow the listing. */
  lemma {:induction false} SelectedAppend(o: Options, env: Environment, a: seq<S3Object>, b: seq<S3Object>)
    ensures Selected(o, env, a + b) == Selected(o, env, a) + Selected(o, env, b)
    ensures Skipped(o, env, a + b) == Skipped(o, env, a) + Skipped(o, env, b)
    decreases |b|
  {
    if b == [] {
      assert a + b == a;
    } else {
      var b' := b[..|b| - 1];
      assert (a + b)[..|a + b| - 1] == a + b';
      assert (a + b)[|a + b| - 1] == b[|b| - 1];
      SelectedAppend(o, env, a, b');
    }
  }

  /** Exactly the eligible listed objects are processed, and every listed
      object is either processed or skipped. */
  lemma {:induction false} SelectedIsEligible(o: Options, env: Environment, objs: seq<S3Object>)
    ensures forall x :: x in Selected(o, env, objs) <==> x in objs && Eligible(o, env, x)
    ensures |Selected(o, env, objs)| + Skipped(o, env, objs) == |objs|
    decreases |objs|
  {
    if objs != [] {
      var init := objs[..|objs| - 1];
      SelectedIsEligible(o, env, init);
      assert objs == init + [objs[|objs| - 1]];
      assert forall x :: x in objs <==> x in init || x == objs[|objs| - 1];
    }
  }

  /** Without `--match` nothing is skipped. */
  lemma {:induction false} NoMatchSelectsAll(o: Options, env: Environment, objs: seq<S3Object>)
    requires o.matchPattern.None?
    ensures Selected(o, env, objs) == objs && Skipped(o, env, objs) == 0
    decreases |objs|
  {
    if objs != [] {
      NoMatchSelectsAll(o, env, objs[..|objs| - 1]);
      assert objs[..|objs| - 1] + [objs[|objs| - 1]] == objs;
    }
  }

  /** Messages numbered from n split at any point of the object list. */
  lemma MessagesAppend(o: Options, env: Environment, topicArn: string, a: seq<S3Object>, b: seq<S3Object>, n: nat)
    ensures Messages(o, env, topicArn, a + b, n)
         == Messages(o, env, topicArn, a, n) + Messages(o, env, topicArn, b, n + |a|)
  {
    var l := Messages(o, env, topicArn, a + b, n);
    var r := Messages(o, env, topicArn, a, n) + Messages(o, env, topicArn, b, n + |a|);
    forall k | 0 <= k < |l| ensures l[k] == r[k] {
      if k >= |a| {
        assert (a + b)[k] == b[k - |a|];
      }
    }
  }

  /** Handling one more listed object: a non-matching one is counted as
      skipped, a matching one is published and counted as touched when
      there is a topic, and ignored otherwise. */
  lemma ValidatedStepSnoc(o: Options, env: Environment, topic: Option<string>, prefix: string,
                          objs: seq<S3Object>, x: S3Object, n: nat)
    ensures var before := ValidatedStep(o, env, topic, prefix, objs, n);
      var after := ValidatedStep(o, env, topic, prefix, objs + [x], n);
      if !Eligible(o, env, x) then
        after == PrefixStep(PrefixReport(prefix, before.report.touched, before.report.skipped + 1), before.published)
      else if topic.Some? then
        after == PrefixStep(PrefixReport(prefix, before.report.touched + 1, before.report.skipped),
                            before.published + [MessageFor(o, env, topic.value, x, n + |before.published|)])
      else
        after == before
  {
    var all := objs + [x];
    assert all[..|all| - 1] == objs && all[|all| - 1] == x;
    if topic.Some? && Eligible(o, env, x) {
      MessagesAppend(o, env, topic.value, Selected(o, env, objs), [x], n);
    }
  }

  // ---------------------------------------------------------------------
  // One prefix

  /** Without validation a prefix with a topic gives one message for the
      prefix itself, with the mock size and eTag, touched 1 and skipped 0;
      without a topic it throws before publishing. */
  lemma BypassPrefix(o: Options, env: Environment, topic: Option<string>, prefix: string, n: nat)
    requires o.skipS3Validation
    ensures topic.None? ==> PrefixRun(o, env, topic, prefix, n) == Thrown(NoSuchElement)
    ensures topic.Some? ==> (PrefixRun(o, env, topic, prefix, n) ==
      Ok(PrefixStep(PrefixReport(prefix, 1, 0),
        [Publish(topic.value, CreateMessageFromTemplate(o.region, env.clock(n), o.event, o.bucket, prefix, 100, "123"))])))
  {
    if topic.Some? {
      var ms := Messages(o, env, topic.value, [MockObject(prefix)], n);
      assert ms == [ms[0]];
    }
  }

  /** With validation: skipped counts the listed objects whose key does not
      match, touched counts the messages, which are those of the eligible
      objects in listing order; with a topic touched and skipped add up to
      the listing, without one nothing is touched or published. */
  lemma ValidatedPrefix(o: Options, env: Environment, topic: Option<string>, prefix: string, n: nat)
    requires !o.skipS3Validation
    ensures var objs := Flatten(env.listObjects(o.bucket, prefix));
      var r := PrefixRun(o, env, topic, prefix, n);
      r.Ok? && r.value.report.prefix == prefix &&
      r.value.report.skipped == Skipped(o, env, objs) &&
      r.value.report.touched == |r.value.published| &&
      (topic.Some? ==> r.value.report.touched + r.value.report.skipped == |objs| &&
                       r.value.published == Messages(o, env, topic.value, Selected(o, env, objs), n)) &&
      (topic.None? ==> r.value.report.touched == 0) &&
      (o.matchPattern.None? ==> r.value.report.skipped == 0)
  {
    var objs := Flatten(env.listObjects(o.bucket, prefix));
    SelectedIsEligible(o, env, objs);
    if o.matchPattern.None? {
      NoMatchSelectsAll(o, env, objs);
    }
  }

  /** The counters of a prefix do not depend on how many messages were
      published before it. */
  lemma ReportIgnoresEarlierMessages(o: Options, env: Environment, topic: Option<string>, prefix: string, n: nat, m: nat)
    ensures PrefixRun(o, env, topic, prefix, n).Ok? == PrefixRun(o, env, topic, prefix, m).Ok?
    ensures PrefixRun(o, env, topic, prefix, n).Ok? ==>
      PrefixRun(o, env, topic, prefix, n).value.report == PrefixRun(o, env, topic, prefix, m).value.report
  {
  }

  // ---------------------------------------------------------------------
  // The prefix loop

  /** The loop over one more prefix. */
  lemma PrefixesRunSnoc(o: Options, env: Environment, topic: Option<string>, ps: seq<string>, p: string, n: nat)
    ensures var before := PrefixesRun(o, env, topic, ps, n);
      PrefixesRun(o, env, topic, ps + [p], n) ==
        if before.failure.Some? then before
        else Extend(before, PrefixRun(o, env, topic, p, n + |before.published|))
  {
    assert (ps + [p])[..|ps|] == ps;
  }

  /** After an exception no further prefix is processed. */
  lemma {:induction false} FailureIsFinal(o: Options, env: Environment, topic: Option<string>,
                                          ps: seq<string>, more: seq<string>, n: nat)
    requires PrefixesRun(o, env, topic, ps, n).failure.Some?
    ensures PrefixesRun(o, env, topic, ps + more, n) == PrefixesRun(o, env, topic, ps, n)
    decreases |more|
  {
    if more == [] {
      assert ps + more == ps;
    } else {
      var more' := more[..|more| - 1];
      assert (ps + more)[..|ps + more| - 1] == ps + more';
      FailureIsFinal(o, env, topic, ps, more', n);
    }
  }

  /** A loop that throws at the i-th prefix ends there. */
  lemma FailureEndsLoop(o: Options, env: Environment, topic: Option<string>, ps: seq<string>, i: nat, n: nat)
    requires i < |ps| && PrefixesRun(o, env, topic, ps[..i + 1], n).failure.Some?
    ensures PrefixesRun(o, env, topic, ps, n) == PrefixesRun(o, env, topic, ps[..i + 1], n)
  {
    FailureIsFinal(o, env, topic, ps[..i + 1], ps[i + 1..], n);
    assert ps[..i + 1] + ps[i + 1..] == ps;
  }

  /** One turn of the prefix loop: the i-th prefix either adds its report
      and messages, or throws and ends the loop. */
  lemma PrefixLoopStep(o: Options, env: Environment, topic: Option<string>, ps: seq<string>, i: nat, n: nat, k: nat)
    requires i < |ps| && PrefixesRun(o, env, topic, ps[..i], n).failure.None?
    requires k == n + |PrefixesRun(o, env, topic, ps[..i], n).published|
    ensures var before := PrefixesRun(o, env, topic, ps[..i], n);
      var step := PrefixRun(o, env, topic, ps[i], k);
      (step.Ok? ==>
        PrefixesRun(o, env, topic, ps[..i + 1], n) ==
        Progress(before.reports + [step.value.report], before.published + step.value.published, None)) &&
      (step.Thrown? ==>
        PrefixesRun(o, env, topic, ps, n) == Progress(before.reports, before.published, Some(step.exception)))
  {
    assert ps[..i + 1] == ps[..i] + [ps[i]];
    PrefixesRunSnoc(o, env, topic, ps[..i], ps[i], n);
    var before := PrefixesRun(o, env, topic, ps[..i], n);
    var step := PrefixRun(o, env, topic, ps[i], k);
    if step.Thrown? {
      FailureEndsLoop(o, env, topic, ps, i, n);
    }
  }

  /** The counters restart at zero for every prefix: the k-th report is that
      of the k-th prefix on its own, and a loop without an exception reports
      every prefix. */
  lemma {:induction false} CountersResetPerPrefix(o: Options, env: Environment, topic: Option<string>,
                                                  ps: seq<string>, n: nat)
    ensures var pr := PrefixesRun(o, env, topic, ps, n);
      |pr.reports| <= |ps| &&
      (pr.failure.None? ==> |pr.reports| == |ps|) &&
      (pr.failure.Some? ==> |pr.reports| < |ps| && PrefixRun(o, env, topic, ps[|pr.reports|], 0).Thrown?) &&
      forall k :: 0 <= k < |pr.reports| ==>
        PrefixRun(o, env, topic, ps[k], 0).Ok? && pr.reports[k] == PrefixRun(o, env, topic, ps[k], 0).value.report
    decreases |ps|
  {
    if ps != [] {
      var init := ps[..|ps| - 1];
      var before := PrefixesRun(o, env, topic, init, n);
      CountersResetPerPrefix(o, env, topic, init, n);
      assert forall k :: 0 <= k < |init| ==> init[k] == ps[k];
      if before.failure.None? {
        ReportIgnoresEarlierMessages(o, env, topic, ps[|ps| - 1], n + |before.published|, 0);
      }
    }
  }

  // ---------------------------------------------------------------------
  // Whole runs

  /** When SNS is requested and no topic matched, the run returns at once:
      no prefix is processed and nothing is published. */
  lemma NoOpRun(o: Options, env: Environment, n: nat)
    requires ExtractEventPrefix(o.event).Ok?
    requires SNS in o.destinations && RunTopic(o, env, ExtractEventPrefix(o.event).value).None?
    ensures RunSpec(o, env, n) == RunResult(NothingToDo, [])
  {
  }

  /** An event name that split leaves no family of ends the run before the
      notification configuration is read. */
  lemma UnreadableEventAborts(o: Options, env: Environment, n: nat)
    requires o.event != [] && AllColons(o.event)
    ensures RunSpec(o, env, n) == RunResult(Failed(ArrayIndexOutOfBounds, []), [])
  {
    PrefixIsTextBeforeFirstColon(o.event);
  }

  /** The messages of a bypass loop with a topic: one per prefix, in order,
      for the prefix with the mock values. */
  lemma {:induction false} BypassPrefixes(o: Options, env: Environment, topicArn: string, ps: seq<string>, n: nat)
    requires o.skipS3Validation
    ensures var pr := PrefixesRun(o, env, Some(topicArn), ps, n);
      pr.failure.None? &&
      pr.reports == seq(|ps|, k requires 0 <= k < |ps| => PrefixReport(ps[k], 1, 0)) &&
      pr.published == seq(|ps|, k requires 0 <= k < |ps| => MessageFor(o, env, topicArn, MockObject(ps[k]), n + k))
    decreases |ps|
  {
    if ps != [] {
      var init := ps[..|ps| - 1];
      BypassPrefixes(o, env, topicArn, init, n);
      assert forall k :: 0 <= k < |init| ==> init[k] == ps[k];
    }
  }

  /** Without validation and with a topic, the run completes with touched 1
      and skipped 0 for every prefix, and publishes one message per prefix,
      in the order of the prefixes. */
  lemma BypassRun(o: Options, env: Environment, n: nat)
    requires o.skipS3Validation && ExtractEventPrefix(o.event).Ok?
    requires RunTopic(o, env, ExtractEventPrefix(o.event).value).Some?
    ensures var ps := o.prefixes;
      var topicArn := RunTopic(o, env, ExtractEventPrefix(o.event).value).value;
      RunSpec(o, env, n) == RunResult(
        Completed(seq(|ps|, k requires 0 <= k < |ps| => PrefixReport(ps[k], 1, 0))),
        seq(|ps|, k requires 0 <= k < |ps| => MessageFor(o, env, topicArn, MockObject(ps[k]), n + k)))
  {
    var topicArn := RunTopic(o, env, ExtractEventPrefix(o.event).value).value;
    BypassPrefixes(o, env, topicArn, o.prefixes, n);
  }

  /** Without validation and without SNS among the destinations there is no
      topic, so the first prefix throws on `optTopicArn.get()` and nothing
      is published. */
  lemma BypassWithoutSnsFails(o: Options, env: Environment, n: nat)
    requires o.skipS3Validation && ExtractEventPrefix(o.event).Ok?
    requires SNS !in o.destinations && o.prefixes != []
    ensures RunSpec(o, env, n) == RunResult(Failed(NoSuchElement, []), [])
  {
    var topic := RunTopic(o, env, ExtractEventPrefix(o.event).value);
    assert topic == None;
    var ps := o.prefixes;
    assert ps == [ps[0]] + ps[1..];
    assert [ps[0]][..0] == [];
    FailureIsFinal(o, env, topic, [ps[0]], ps[1..], n);
  }
}
