/** Choosing the SNS topic that receives the simulated event
    (S3Notify.getTopicArn): a first-match scan over the bucket's topic
    configurations in the order S3 returns them. */
module TopicMatching {
  import opened JavaLang

  /** The `--service` values. */
  datatype DestinationType = SNS | SQS | LAMBDA

  /** One topic configuration of a bucket: the topic and the event patterns
      (such as "s3:ObjectCreated:*") it is subscribed to, in order. */
  datatype TopicConfiguration = TopicConfiguration(topicArn: string, events: seq<string>)

  /** The bucket's notification configuration; `topicConfigurations` is None
      when hasTopicConfigurations() is false. */
  datatype NotificationConfiguration =
    NotificationConfiguration(topicConfigurations: Option<seq<TopicConfiguration>>)

  /** Index of the first pattern that starts with p, or |patterns| if none
      does (`stream().filter(es -> es.startsWith(p)).findFirst()`). */
  function FirstStartingWith(patterns: seq<string>, p: string): (k: nat)
    ensures k <= |patterns|
    ensures forall j :: 0 <= j < k ==> !StartsWith(patterns[j], p)
    ensures k < |patterns| ==> StartsWith(patterns[k], p)
  {
    if patterns == [] || StartsWith(patterns[0], p) then 0
    else 1 + FirstStartingWith(patterns[1..], p)
  }

  /** The pattern getTopicArn examines for a configuration: the first one of
      the family of the requested event. */
  function Candidate(tc: TopicConfiguration, prefix: string): Option<string>
  {
    var k := FirstStartingWith(tc.events, "s3:" + prefix);
    if k < |tc.events| then Some(tc.events[k]) else None
  }

  /** Whether getTopicArn accepts a configuration: its candidate pattern ends
      with "*" or with the requested action. */
  predicate Qualifies(tc: TopicConfiguration, prefix: string, suffix: Option<string>)
  {
    var matched := Candidate(tc, prefix);
    matched.Some? &&
    (EndsWith(matched.value, "*") || (suffix.Some? && EndsWith(matched.value, suffix.value)))
  }

  /** Index of the first qualifying configuration, or |tcs| if none does. */
  function FirstQualifying(tcs: seq<TopicConfiguration>, prefix: string, suffix: Option<string>): (k: nat)
    ensures k <= |tcs|
    ensures forall j :: 0 <= j < k ==> !Qualifies(tcs[j], prefix, suffix)
    ensures k < |tcs| ==> Qualifies(tcs[k], prefix, suffix)
  {
    if tcs == [] || Qualifies(tcs[0], prefix, suffix) then 0
    else 1 + FirstQualifying(tcs[1..], prefix, suffix)
  }

  /** The topic chosen from a list of configurations. */
  function SelectFrom(tcs: seq<TopicConfiguration>, prefix: string, suffix: Option<string>): Option<string>
  {
    var k := FirstQualifying(tcs, prefix, suffix);
    if k < |tcs| then Some(tcs[k].topicArn) else None
  }

  /** The topic getTopicArn returns. */
  function SelectTopic(destinations: seq<DestinationType>, config: NotificationConfiguration,
                       prefix: string, suffix: Option<string>): Option<string>
  {
    if SNS in destinations && config.topicConfigurations.Some? then
      SelectFrom(config.topicConfigurations.value, prefix, suffix)
    else
      None
  }

  /** No topic is chosen unless SNS is a destination and the bucket has topic
      configurations. */
  lemma NoTopicWithoutSnsOrConfigurations(destinations: seq<DestinationType>, config: NotificationConfiguration,
                                          prefix: string, suffix: Option<string>)
    requires SNS !in destinations || config.topicConfigurations.None?
    ensures SelectTopic(destinations, config, prefix, suffix) == None
  {
  }

  /** The chosen topic is that of the earliest qualifying configuration, and
      there is none exactly when no configuration qualifies. */
  lemma SelectFromIsFirstMatch(tcs: seq<TopicConfiguration>, prefix: string, suffix: Option<string>)
    ensures SelectFrom(tcs, prefix, suffix).None? <==>
      forall i :: 0 <= i < |tcs| ==> !Qualifies(tcs[i], prefix, suffix)
    ensures SelectFrom(tcs, prefix, suffix).Some? ==>
      exists i :: 0 <= i < |tcs| && Qualifies(tcs[i], prefix, suffix) &&
        tcs[i].topicArn == SelectFrom(tcs, prefix, suffix).value &&
        forall j :: 0 <= j < i ==> !Qualifies(tcs[j], prefix, suffix)
  {
    var k := FirstQualifying(tcs, prefix, suffix);
    if k < |tcs| {
      assert Qualifies(tcs[k], prefix, suffix);
    }
  }

  /** Configurations after a qualifying one are never inspected. */
  lemma {:induction false} LaterConfigurationsIgnored(tcs: seq<TopicConfiguration>, later: seq<TopicConfiguration>,
                                                      prefix: string, suffix: Option<string>)
    requires SelectFrom(tcs, prefix, suffix).Some?
    ensures SelectFrom(tcs + later, prefix, suffix) == SelectFrom(tcs, prefix, suffix)
  {
    var k := FirstQualifying(tcs, prefix, suffix);
    var k' := FirstQualifying(tcs + later, prefix, suffix);
    assert forall j :: 0 <= j <= k ==> (tcs + later)[j] == tcs[j];
  }

  /** Configurations that do not qualify can be added in front, in any
      number and order, without changing the choice. */
  lemma {:induction false} NonQualifyingIgnored(skipped: seq<TopicConfiguration>, tcs: seq<TopicConfiguration>,
                                                prefix: string, suffix: Option<string>)
    requires forall i :: 0 <= i < |skipped| ==> !Qualifies(skipped[i], prefix, suffix)
    ensures SelectFrom(skipped + tcs, prefix, suffix) == SelectFrom(tcs, prefix, suffix)
    decreases |skipped|
  {
    if skipped != [] {
      var all := skipped + tcs;
      assert all[0] == skipped[0];
      assert all[1..] == skipped[1..] + tcs;
      var k := FirstQualifying(all[1..], prefix, suffix);
      assert FirstQualifying(all, prefix, suffix) == 1 + k;
      if k < |all[1..]| {
        assert all[1 + k] == all[1..][k];
      }
      assert SelectFrom(all, prefix, suffix) == SelectFrom(all[1..], prefix, suffix);
      assert forall i :: 0 <= i < |skipped[1..]| ==> skipped[1..][i] == skipped[i + 1];
      NonQualifyingIgnored(skipped[1..], tcs, prefix, suffix);
    } else {
      assert skipped + tcs == tcs;
    }
  }

  /** Only the first pattern of the requested family is examined: whatever
      follows it in the configuration's list has no influence. */
  lemma {:induction false} OnlyFirstCandidateExamined(arn: string, before: seq<string>, first: string, after: seq<string>,
                                                      prefix: string, suffix: Option<string>)
    requires forall j :: 0 <= j < |before| ==> !StartsWith(before[j], "s3:" + prefix)
    requires StartsWith(first, "s3:" + prefix)
    ensures Qualifies(TopicConfiguration(arn, before + [first] + after), prefix, suffix) <==>
      (EndsWith(first, "*") || (suffix.Some? && EndsWith(first, suffix.value)))
  {
    var events := before + [first] + after;
    var k := FirstStartingWith(events, "s3:" + prefix);
    assert events[|before|] == first;
    assert forall j :: 0 <= j < |before| ==> events[j] == before[j];
    assert k == |before|;
  }

  /** A pattern ending in "*" accepts every action of its family, and even a
      requested event without one. */
  lemma WildcardAcceptsAnyAction(tc: TopicConfiguration, prefix: string, suffix: Option<string>)
    requires Candidate(tc, prefix).Some? && EndsWith(Candidate(tc, prefix).value, "*")
    ensures Qualifies(tc, prefix, suffix) && Qualifies(tc, prefix, None)
  {
  }

  /** A bucket subscribed to every "ObjectCreated" action gets the default
      event; one subscribed to deletions alone does not. */
  lemma TopicScenarios()
    ensures SelectTopic([SNS], NotificationConfiguration(Some([TopicConfiguration("T1", ["s3:ObjectCreated:*"])])),
                        "ObjectCreated", Some("Put")) == Some("T1")
    ensures SelectTopic([SNS], NotificationConfiguration(Some([TopicConfiguration("T1", ["s3:ObjectRemoved:Delete"])])),
                        "ObjectCreated", Some("Put")) == None
  {
    var created := "s3:ObjectCreated:*";
    assert StartsWith(created, "s3:" + "ObjectCreated") by {
      assert created[..|"s3:ObjectCreated"|] == "s3:ObjectCreated";
    }
    assert EndsWith(created, "*");
    var removed := "s3:ObjectRemoved:Delete";
    assert !StartsWith(removed, "s3:" + "ObjectCreated") by {
      assert removed[9] != "s3:ObjectCreated"[9];
    }
    assert FirstStartingWith([removed], "s3:ObjectCreated") == 1;
  }

  /** The source examines only the first candidate; a list that names the
      requested action after another action of the family does not qualify. */
  lemma FirstCandidateMasksLaterOnes()
    ensures !Qualifies(TopicConfiguration("T1", ["s3:ObjectCreated:Copy", "s3:ObjectCreated:Put"]),
                       "ObjectCreated", Some("Put"))
  {
    var copy := "s3:ObjectCreated:Copy";
    assert StartsWith(copy, "s3:" + "ObjectCreated") by {
      assert copy[..|"s3:ObjectCreated"|] == "s3:ObjectCreated";
    }
    assert !EndsWith(copy, "*") && !EndsWith(copy, "Put") by {
      assert copy[|copy| - 1] == 'y';
    }
    OnlyFirstCandidateExamined("T1", [], copy, ["s3:ObjectCreated:Put"], "ObjectCreated", Some("Put"));
    assert [] + [copy] + ["s3:ObjectCreated:Put"] == ["s3:ObjectCreated:Copy", "s3:ObjectCreated:Put"];
  }
}
