/** The command object itself (class S3Notify): the options it was started
    with, the fields run() sets, and the log of messages handed to SNS. */
module Notify {
  import opened JavaLang
  import opened EventNames
  import opened TopicMatching
  import opened Message
  import opened Dispatch

  class S3Notify {
    const options: Options
    /** The S3 client, the regular-expression engine and the clock. */
    const env: Environment
    var verbose: bool
    var eventPrefix: string
    var eventSuffix: Option<string>
    /** Every sns.publish call so far, in order. */
    var published: seq<Publish>

    /** A fresh command; the event fields are set by run() before they are
        read, and nothing has been published. */
    constructor(options: Options, env: Environment)
      ensures this.options == options && this.env == env
      ensures verbose == options.verbose
      ensures eventPrefix == [] && eventSuffix == None && published == []
    {
      this.options := options;
      this.env := env;
      verbose := options.verbose;
      eventPrefix := [];
      eventSuffix := None;
      published := [];
    }

    /** getTopicArn: the first configuration, in order, that accepts the
        current event; empty unless SNS is a destination and the bucket has
        topic configurations. */
    method GetTopicArn(notificationConfig: NotificationConfiguration) returns (r: Option<string>)
      ensures r == SelectTopic(options.destinations, notificationConfig, eventPrefix, eventSuffix)
    {
      if SNS in options.destinations && notificationConfig.topicConfigurations.Some? {
        var availableTopics := notificationConfig.topicConfigurations.value;
        for i := 0 to |availableTopics|
          invariant forall j :: 0 <= j < i ==> !Qualifies(availableTopics[j], eventPrefix, eventSuffix)
        {
          var topicConfiguration := availableTopics[i];
          var matched := Candidate(topicConfiguration, eventPrefix);
          if matched.Some? &&
             (EndsWith(matched.value, "*") ||
              (eventSuffix.Some? && EndsWith(matched.value, eventSuffix.value)))
          {
            return Some(topicConfiguration.topicArn);
          }
        }
      }
      return None;
    }

    /** sendNotificationToSns: publishes the message for the object to the
        topic; the message is time-stamped with the clock reading for the
        number of messages published so far. */
    method SendNotificationToSns(key: string, size: long, etag: string, topicArn: string)
      modifies this`published
      ensures published == old(published) + [MessageFor(options, env, topicArn, S3Object(key, size, etag), |old(published)|)]
    {
      var message := CreateMessageFromTemplate(options.region, env.clock(|published|), options.event,
                                               options.bucket, key, size, etag);
      published := published + [Publish(topicArn, message)];
    }

    /** The counters and messages of one page of the listing
        (`page.contents().forEach(...)`), continuing those of the objects
        seen on the earlier pages. */
    method ProcessPage(prefix: string, contents: seq<S3Object>, optTopicArn: Option<string>,
                       ghost seen: seq<S3Object>, ghost start: seq<Publish>, touchCount: nat, skipCount: nat)
      returns (touched: nat, skipped: nat)
      requires var st := ValidatedStep(options, env, optTopicArn, prefix, seen, |start|);
        st.report == PrefixReport(prefix, touchCount, skipCount) && published == start + st.published
      modifies this`published
      ensures var st := ValidatedStep(options, env, optTopicArn, prefix, seen + contents, |start|);
        st.report == PrefixReport(prefix, touched, skipped) && published == start + st.published
    {
      touched, skipped := touchCount, skipCount;
      ghost var n := |start|;
      assert seen + contents[..0] == seen;
      for j := 0 to |contents|
        invariant var st := ValidatedStep(options, env, optTopicArn, prefix, seen + contents[..j], n);
          st.report == PrefixReport(prefix, touched, skipped) && published == start + st.published
      {
        var f := contents[j];
        assert seen + contents[..j + 1] == (seen + contents[..j]) + [f];
        ValidatedStepSnoc(options, env, optTopicArn, prefix, seen + contents[..j], f, n);
        if options.matchPattern.Some? && !env.keyMatches(f.key, options.matchPattern.value) {
          skipped := skipped + 1;
        } else if optTopicArn.Some? {
          SendNotificationToSns(f.key, f.size, f.eTag, optTopicArn.value);
          touched := touched + 1;
        }
      }
      assert contents[..|contents|] == contents;
    }

    /** The body of the prefix loop of run() for one prefix: fresh counters,
        then either the mock object or every listed object, page by page. */
    method ProcessPrefix(prefix: string, optTopicArn: Option<string>) returns (r: Result<PrefixReport>)
      modifies this`published
      ensures var step := PrefixRun(options, env, optTopicArn, prefix, |old(published)|);
        if step.Thrown? then r == Thrown(step.exception) && published == old(published)
        else r == Ok(step.value.report) && published == old(published) + step.value.published
    {
      var touchCount: nat := 0;
      var skipCount: nat := 0;
      if options.skipS3Validation {
        if optTopicArn.None? {
          return Thrown(NoSuchElement);
        }
        SendNotificationToSns(prefix, 100, "123", optTopicArn.value);
        touchCount := touchCount + 1;
        ghost var ms := Messages(options, env, optTopicArn.value, [MockObject(prefix)], |old(published)|);
        assert ms == [ms[0]];
      } else {
        var pages := env.listObjects(options.bucket, prefix);
        ghost var n := |old(published)|;
        for p := 0 to |pages|
          invariant var st := ValidatedStep(options, env, optTopicArn, prefix, Flatten(pages[..p]), n);
            st.report == PrefixReport(prefix, touchCount, skipCount) && published == old(published) + st.published
        {
          assert pages[..p + 1][..p] == pages[..p];
          touchCount, skipCount := ProcessPage(prefix, pages[p].contents, optTopicArn, Flatten(pages[..p]), old(published),
                                               touchCount, skipCount);
        }
        assert pages[..|pages|] == pages;
      }
      r := Ok(PrefixReport(prefix, touchCount, skipCount));
    }

    /** The prefix loop of run(): the prefixes in order, each with fresh
        counters, until one throws. */
    method ProcessPrefixes(prefixList: seq<string>, optTopicArn: Option<string>) returns (reports: seq<PrefixReport>, failure: Option<JavaException>)
      modifies this`published
      ensures var pr := PrefixesRun(options, env, optTopicArn, prefixList, |old(published)|);
        reports == pr.reports && failure == pr.failure && published == old(published) + pr.published
    {
      ghost var n := |old(published)|;
      ghost var progress := Progress([], [], None);
      reports := [];
      for i := 0 to |prefixList|
        invariant progress == PrefixesRun(options, env, optTopicArn, prefixList[..i], n)
        invariant progress.failure.None? && reports == progress.reports
        invariant published == old(published) + progress.published
      {
        PrefixLoopStep(options, env, optTopicArn, prefixList, i, n, |published|);
        ghost var step := PrefixRun(options, env, optTopicArn, prefixList[i], |published|);
        var r := ProcessPrefix(prefixList[i], optTopicArn);
        if r.Thrown? {
          return reports, Some(r.exception);
        }
        progress := Progress(progress.reports + [step.value.report], progress.published + step.value.published, None);
        reports := reports + [r.value];
      }
      assert prefixList[..|prefixList|] == prefixList;
      failure := None;
    }

    /** run(): reads the event name, looks up the topic, returns early when
        SNS was requested and no topic matched, and otherwise processes the
        prefixes. */
    method Run() returns (outcome: RunOutcome)
      modifies this
      ensures var spec := RunSpec(options, env, |old(published)|);
        outcome == spec.outcome && published == old(published) + spec.published
      ensures verbose == (old(verbose) || options.debug)
      ensures ExtractEventPrefix(options.event).Ok? ==>
        eventPrefix == ExtractEventPrefix(options.event).value && eventSuffix == ExtractEventSuffix(options.event)
      ensures ExtractEventPrefix(options.event).Thrown? ==>
        eventPrefix == old(eventPrefix) && eventSuffix == old(eventSuffix)
    {
      if options.debug {
        verbose := true;
      }
      var parsed := ExtractEventPrefix(options.event);
      if parsed.Thrown? {
        return Failed(parsed.exception, []);
      }
      eventPrefix := parsed.value;
      eventSuffix := ExtractEventSuffix(options.event);
      var notificationConfig := env.notificationConfiguration(options.bucket);
      var optTopicArn := GetTopicArn(notificationConfig);
      if SNS in options.destinations && optTopicArn.None? {
        return NothingToDo;
      }
      var reports, failure := ProcessPrefixes(options.prefixes, optTopicArn);
      if failure.Some? {
        return Failed(failure.value, reports);
      }
      return Completed(reports);
    }
  }
}
