/** The JSON body of one simulated S3 event (S3Notify.createMessageFromTemplate):
    a fixed template whose placeholders are filled verbatim, without any JSON
    escaping, and whose eTag is written without quotes. */
module Message {
  import opened JavaLang

  // The literal text of the template between its eight `%s` placeholders,
  // line by line as the source writes it.
  const Head: string := "{\n" + "\t\"Records\": [\n" + "\t\t{\n" + "\t\t\t\"eventVersion\": \"2.0\",\n"
    + "\t\t\t\"eventSource\": \"aws:s3\",\n" + "\t\t\t\"awsRegion\": \""
  const AfterRegion: string := "\",\n" + "\t\t\t\"eventTime\": \""
  const AfterTime: string := "\",\n" + "\t\t\t\"eventName\": \""
  const AfterEvent: string := "\",\n" + "\t\t\t\"s3\": {\n" + "\t\t\t\t\"s3SchemaVersion\": \"1.0\",\n"
    + "\t\t\t\t\"bucket\": {\n" + "\t\t\t\t\t\"name\": \""
  const AfterName: string := "\",\n" + "\t\t\t\t\t\"arn\": \"arn:aws:s3:::"
  const AfterArn: string := "\"\n" + "\t\t\t\t},\n" + "\t\t\t\t\"object\": {\n" + "\t\t\t\t\t\"key\": \""
  const AfterKey: string := "\",\n" + "\t\t\t\t\t\"size\": \""
  const AfterSize: string := "\",\n" + "\t\t\t\t\t\"eTag\": "
  const Tail: string := "\n" + "\t\t\t\t}\n" + "\t\t\t}\n" + "\t\t}\n" + "\t]\n" + "}"

  /** The template of createMessageFromTemplate: the literal text around
      its eight placeholders. */
  const EventTemplate: seq<string> :=
    [Head, AfterRegion, AfterTime, AfterEvent, AfterName, AfterArn, AfterKey, AfterSize, Tail]

  /** String.format with `%s` placeholders: the literal parts with the
      arguments, verbatim, between them. */
  function Format(parts: seq<string>, args: seq<string>): string
    requires |parts| == |args| + 1
  {
    if args == [] then parts[0] else parts[0] + (args[0] + Format(parts[1..], args[1..]))
  }

  /** The message for one object; `now` is the text of LocalDateTime.now()
      and the size is written as Long.toString writes it. The bucket fills
      two placeholders, the second after "arn:aws:s3:::". */
  function CreateMessageFromTemplate(region: string, now: string, event: string, bucket: string,
                                     key: string, size: long, etag: string): string
  {
    Format(EventTemplate, [region, now, event, bucket, bucket, key, LongToString(size), etag])
  }

  /** The values a message carries. */
  datatype Record = Record(awsRegion: string, eventTime: string, eventName: string,
                           bucketName: string, key: string, size: long, eTag: string)

  /** The text before the next c, and the rest from that c on. */
  function ReadUntil(s: string, c: char): (string, string)
  {
    var i := IndexOf(s, c);
    (s[..i], s[i..])
  }

  /** The rest of s after the literal text lit, if s starts with it. */
  function Expect(lit: string, s: string): Option<string>
  {
    if StartsWith(s, lit) then Some(s[|lit|..]) else None
  }

  /** Every literal part after the first opens with the character that ends
      the argument before it. */
  predicate Delimited(parts: seq<string>) {
    forall k :: 1 <= k < |parts| ==> |parts[k]| > 0
  }

  /** Reads the arguments back out of a formatted text: each one runs up to
      the first character of the literal part that follows it. */
  function Unformat(parts: seq<string>, s: string): Option<seq<string>>
    requires |parts| >= 1 && Delimited(parts)
  {
    if |parts| == 1 then
      if s == parts[0] then Some([]) else None
    else
      var r :- Expect(parts[0], s);
      var (arg, rest) := ReadUntil(r, parts[1][0]);
      var args :- Unformat(parts[1..], rest);
      Some([arg] + args)
  }

  /** Reads the values back out of an event message; the two bucket texts
      must agree and the size must be a long in decimal. */
  function ParseMessage(m: string): Option<Record>
  {
    EventTemplateDelimited();
    var args :- Unformat(EventTemplate, m);
    if |args| == 8 && args[3] == args[4] then
      var size :- ParseLong(args[6]);
      Some(Record(args[0], args[1], args[2], args[3], args[5], size, args[7]))
    else
      None
  }

  lemma {:induction false} ReadUntilAppend(x: string, c: char, rest: string)
    requires c !in x
    ensures ReadUntil(x + [c] + rest, c) == (x, [c] + rest)
    decreases |x|
  {
    var s := x + [c] + rest;
    if x != [] {
      assert x[0] in x;
      assert s[1..] == x[1..] + [c] + rest;
      assert forall d :: d in x[1..] ==> d in x;
      ReadUntilAppend(x[1..], c, rest);
      assert IndexOf(s, c) == 1 + IndexOf(s[1..], c);
    }
    assert s[..|x|] == x && s[|x|..] == [c] + rest;
  }

  lemma ReadUntilAt(x: string, c: char, t: string)
    requires c !in x && |t| > 0 && t[0] == c
    ensures ReadUntil(x + t, c) == (x, t)
  {
    assert x + t == x + [c] + t[1..];
    assert [c] + t[1..] == t;
    ReadUntilAppend(x, c, t[1..]);
  }

  lemma ExpectAppend(lit: string, rest: string)
    ensures Expect(lit, lit + rest) == Some(rest)
  {
    assert (lit + rest)[..|lit|] == lit;
    assert (lit + rest)[|lit|..] == rest;
  }

  lemma {:induction false} FormatStartsWithFirstPart(parts: seq<string>, args: seq<string>)
    requires |parts| == |args| + 1
    ensures |Format(parts, args)| >= |parts[0]|
    ensures Format(parts, args)[..|parts[0]|] == parts[0]
  {
    if args != [] {
      assert Format(parts, args) == parts[0] + (args[0] + Format(parts[1..], args[1..]));
    }
  }

  /** Formatting and reading back gives the arguments that were put in,
      provided no argument holds the character that ends it. */
  lemma {:induction false} FormatRoundTrip(parts: seq<string>, args: seq<string>)
    requires |parts| == |args| + 1 && Delimited(parts)
    requires forall k :: 0 <= k < |args| ==> parts[k + 1][0] !in args[k]
    ensures Unformat(parts, Format(parts, args)) == Some(args)
    decreases |args|
  {
    if args != [] {
      var rest := Format(parts[1..], args[1..]);
      FormatStartsWithFirstPart(parts[1..], args[1..]);
      assert rest == parts[1] + rest[|parts[1]|..];
      ExpectAppend(parts[0], args[0] + rest);
      assert parts[1][0] !in args[0] by { assert parts[0 + 1][0] !in args[0]; }
      ReadUntilAt(args[0], parts[1][0], rest);
      assert forall k :: 0 <= k < |args[1..]| ==> parts[1..][k + 1][0] !in args[1..][k] by {
        forall k | 0 <= k < |args[1..]| ensures parts[1..][k + 1][0] !in args[1..][k] {
          assert parts[1..][k + 1] == parts[k + 2] && args[1..][k] == args[k + 1];
        }
      }
      FormatRoundTrip(parts[1..], args[1..]);
      assert [args[0]] + args[1..] == args;
    }
  }

  /** Each literal part after a value opens with the closing '"' of that
      value, except the one after the unquoted eTag, which opens with a
      newline. */
  lemma EventTemplateDelimited()
    ensures |EventTemplate| == 9 && Delimited(EventTemplate)
    ensures forall k :: 1 <= k < 8 ==> EventTemplate[k][0] == '"'
    ensures EventTemplate[8][0] == '\n'
  {
  }

  /** Every argument the template receives reads back unchanged, in its
      place: region, time, event name, bucket (twice, the second time after
      "arn:aws:s3:::"), key, the size from its decimal text, and the raw
      eTag. This holds whenever the quoted values contain no '"' and the eTag
      no newline, the inputs on which the unescaped substitution cannot shift
      a field. */
  lemma MessageRoundTrip(region: string, now: string, event: string, bucket: string,
                         key: string, size: long, etag: string)
    requires '"' !in region && '"' !in now && '"' !in event && '"' !in bucket && '"' !in key
    requires '\n' !in etag
    ensures ParseMessage(CreateMessageFromTemplate(region, now, event, bucket, key, size, etag))
            == Some(Record(region, now, event, bucket, key, size, etag))
  {
    var sizeText := LongToString(size);
    assert '"' !in sizeText by {
      assert forall i :: 0 <= i < |sizeText| ==> sizeText[i] != '"';
    }
    var args := [region, now, event, bucket, bucket, key, sizeText, etag];
    EventTemplateDelimited();
    FormatRoundTrip(EventTemplate, args);
    LongRoundTrip(size);
  }

  lemma EndsWithAppend(x: string, y: string, q: string)
    requires EndsWith(y, q)
    ensures EndsWith(x + y, q)
  {
    assert (x + y)[|x + y| - |q|..] == y[|y| - |q|..];
  }

  /** The text of the last argument with the literal parts around it. */
  function LastArgumentText(parts: seq<string>, args: seq<string>): string
    requires |parts| == |args| + 1 && |args| >= 1
  {
    parts[|args| - 1] + args[|args| - 1] + parts[|args|]
  }

  lemma LastArgumentOfRest(parts: seq<string>, args: seq<string>)
    requires |parts| == |args| + 1 && |args| >= 2
    ensures LastArgumentText(parts[1..], args[1..]) == LastArgumentText(parts, args)
  {
    assert parts[1..][|args| - 2] == parts[|args| - 1];
    assert args[1..][|args| - 2] == args[|args| - 1];
    assert parts[1..][|args| - 1] == parts[|args|];
  }

  lemma {:induction false} FormatEndsWithLastArgument(parts: seq<string>, args: seq<string>)
    requires |parts| == |args| + 1 && |args| >= 1
    ensures EndsWith(Format(parts, args), LastArgumentText(parts, args))
    decreases |args|
  {
    if |args| == 1 {
      assert Format(parts[1..], args[1..]) == parts[1];
    } else {
      FormatEndsWithLastArgument(parts[1..], args[1..]);
      LastArgumentOfRest(parts, args);
      EndsWithAppend(parts[0] + args[0], Format(parts[1..], args[1..]), LastArgumentText(parts, args));
    }
  }

  /** The eTag is written raw, with no quotes of its own: the message ends
      with `"eTag": `, the eTag exactly as given, and the closing lines. */
  lemma ETagIsUnquoted(region: string, now: string, event: string, bucket: string,
                       key: string, size: long, etag: string)
    ensures EndsWith(CreateMessageFromTemplate(region, now, event, bucket, key, size, etag),
                     AfterSize + etag + Tail)
  {
    FormatEndsWithLastArgument(EventTemplate,
      [region, now, event, bucket, bucket, key, LongToString(size), etag]);
  }
}
