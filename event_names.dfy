/** Splitting an S3 event name such as "ObjectCreated:Put" into the part that
    selects the event family and the optional part that selects the action
    (S3Notify.extractEventPrefix and S3Notify.extractEventSuffix). Both call
    Java's String.split(":"), whose trailing empty pieces are dropped. */
module EventNames {
  import opened JavaLang

  /** Position of the last ':' in s, or -1 when there is none. */
  function LastColonIndex(s: string): (i: int)
    ensures -1 <= i < |s|
    ensures 0 <= i ==> s[i] == ':'
    ensures forall j :: i < j < |s| ==> s[j] != ':'
  {
    if s == [] then -1
    else if s[|s| - 1] == ':' then |s| - 1
    else LastColonIndex(s[..|s| - 1])
  }

  /** The text between consecutive ':' delimiters, empty pieces included:
      n delimiters give n + 1 pieces. */
  function Pieces(s: string): (r: seq<string>)
    decreases |s|
    ensures 1 <= |r|
  {
    var i := IndexOf(s, ':');
    if i == |s| then [s] else [s[..i]] + Pieces(s[i + 1..])
  }

  /** The pieces joined back with ':' between them. */
  function Join(pieces: seq<string>): string
    requires 1 <= |pieces|
  {
    if |pieces| == 1 then pieces[0] else pieces[0] + ":" + Join(pieces[1..])
  }

  /** The pieces are exactly what lies between the delimiters. */
  lemma {:induction false} JoinPieces(s: string)
    ensures Join(Pieces(s)) == s
  {
    var i := IndexOf(s, ':');
    var ps := Pieces(s);
    if i < |s| {
      var rest := Pieces(s[i + 1..]);
      assert ps == [s[..i]] + rest;
      assert ps[0] == s[..i] && ps[1..] == rest;
      JoinPieces(s[i + 1..]);
      assert Join(ps) == s[..i] + ":" + Join(rest);
      assert s == s[..i] + ":" + s[i + 1..];
    } else {
      assert ps == [s];
    }
  }

  /** A delimiter in the middle splits the pieces of the two sides apart. */
  lemma {:induction false} PiecesAppend(x: string, y: string)
    ensures Pieces(x + [':'] + y) == Pieces(x) + Pieces(y)
    decreases |x|
  {
    var s := x + [':'] + y;
    var i := IndexOf(s, ':');
    var k := IndexOf(x, ':');
    if k < |x| {
      assert s[k] == ':';
      assert i == k;
      assert s[i + 1..] == x[k + 1..] + [':'] + y;
      PiecesAppend(x[k + 1..], y);
      assert s[..i] == x[..k];
    } else {
      assert s[|x|] == ':';
      assert i == |x|;
      assert s[..i] == x && s[i + 1..] == y;
    }
  }

  lemma {:induction false} IndexOfColonWhenColonFree(s: string)
    requires ':' !in s
    ensures IndexOf(s, ':') == |s|
  {
    if s != [] {
      assert s[0] in s;
      assert forall c :: c in s[1..] ==> c in s;
      IndexOfColonWhenColonFree(s[1..]);
    }
  }

  lemma ColonFreePieces(s: string)
    requires ':' !in s
    ensures Pieces(s) == [s]
  {
    IndexOfColonWhenColonFree(s);
  }

  /** No piece holds a ':': with JoinPieces, the pieces are exactly the
      texts between consecutive delimiters. */
  lemma {:induction false} PiecesColonFree(s: string)
    ensures forall k :: 0 <= k < |Pieces(s)| ==> ':' !in Pieces(s)[k]
    decreases |s|
  {
    var i := IndexOf(s, ':');
    var ps := Pieces(s);
    assert ':' !in s[..i] by {
      forall j | 0 <= j < i ensures s[..i][j] != ':' { assert s[..i][j] == s[j]; }
    }
    if i < |s| {
      var rest := Pieces(s[i + 1..]);
      PiecesColonFree(s[i + 1..]);
      assert ps == [s[..i]] + rest;
      forall k | 0 <= k < |ps| ensures ':' !in ps[k] {
        if k > 0 { assert ps[k] == rest[k - 1]; }
      }
    } else {
      assert s[..i] == s && ps == [s];
    }
  }

  /** Removes the empty strings at the end of a list, as split(regex, 0) does. */
  function DropTrailingEmpty(xs: seq<string>): (r: seq<string>)
    ensures |r| <= |xs| && r == xs[..|r|]
    ensures r == [] || r[|r| - 1] != ""
    ensures forall k :: |r| <= k < |xs| ==> xs[k] == ""
  {
    if xs == [] then xs
    else if xs[|xs| - 1] == "" then DropTrailingEmpty(xs[..|xs| - 1])
    else xs
  }

  /** Java's `s.split(":")`: when the delimiter does not occur the result is
      the string itself (so "" gives [""]); otherwise the pieces with trailing
      empty pieces removed (so ":" gives []). */
  function Split(s: string): seq<string>
  {
    if ':' !in s then [s] else DropTrailingEmpty(Pieces(s))
  }

  /** extractEventPrefix: `parts[0]`, which throws when split returned no piece. */
  function ExtractEventPrefix(eventString: string): Result<string>
  {
    var parts := Split(eventString);
    if |parts| == 0 then Thrown(ArrayIndexOutOfBounds) else Ok(parts[0])
  }

  /** extractEventSuffix: the last piece when split returned more than one. */
  function ExtractEventSuffix(eventString: string): Option<string>
  {
    var parts := Split(eventString);
    if |parts| > 1 then Some(parts[|parts| - 1]) else None
  }

  predicate AllColons(s: string) {
    forall j :: 0 <= j < |s| ==> s[j] == ':'
  }

  lemma {:induction false} PiecesAllEmpty(s: string)
    ensures (forall k :: 0 <= k < |Pieces(s)| ==> Pieces(s)[k] == "") ==> AllColons(s)
    ensures AllColons(s) ==> (forall k :: 0 <= k < |Pieces(s)| ==> Pieces(s)[k] == "")
    decreases |s|
  {
    var i := IndexOf(s, ':');
    if i < |s| {
      PiecesAllEmpty(s[i + 1..]);
      var r := Pieces(s);
      assert r == [s[..i]] + Pieces(s[i + 1..]);
      if AllColons(s) {
        assert i == 0;
        assert AllColons(s[i + 1..]);
      }
      if forall k :: 0 <= k < |r| ==> r[k] == "" {
        assert r[0] == "" && i == 0;
        var rest := Pieces(s[i + 1..]);
        forall k | 0 <= k < |rest| ensures rest[k] == "" {
          assert r[k + 1] == rest[k];
        }
        forall j | 0 <= j < |s| ensures s[j] == ':' {
          if j > 0 { assert s[j] == s[i + 1..][j - 1]; }
        }
      }
    } else if s != [] {
      var r := Pieces(s);
      assert r == [s];
      assert r[0] != "";
      assert s[0] != ':';
      assert !AllColons(s);
      assert !(forall k :: 0 <= k < |r| ==> r[k] == "");
    } else {
      assert Pieces(s) == [s];
    }
  }

  /** The event family: the text before the first ':', or the whole string
      when it has none. Only a non-empty string made of ':' alone throws. */
  lemma PrefixIsTextBeforeFirstColon(s: string)
    ensures ExtractEventPrefix(s) ==
      if s != [] && AllColons(s) then Thrown(ArrayIndexOutOfBounds) else Ok(s[..IndexOf(s, ':')])
  {
    if ':' in s {
      var ps := Pieces(s);
      var r := DropTrailingEmpty(ps);
      PiecesAllEmpty(s);
      if r == [] {
        assert AllColons(s);
      } else {
        assert r[|r| - 1] == ps[|r| - 1] != "";
        assert !AllColons(s);
        assert r[0] == ps[0];
        var i := IndexOf(s, ':');
        assert i < |s| by { var j :| 0 <= j < |s| && s[j] == ':'; }
      }
    } else {
      assert s[..|s|] == s;
      assert s != [] ==> s[0] != ':';
    }
  }

  /** s with every ':' at its end removed. */
  function TrimTrailingColons(s: string): (t: string)
    ensures |t| <= |s| && t == s[..|t|] && (t == [] || t[|t| - 1] != ':')
    ensures forall j :: |t| <= j < |s| ==> s[j] == ':'
  {
    if s != [] && s[|s| - 1] == ':' then TrimTrailingColons(s[..|s| - 1]) else s
  }

  lemma PiecesTrailingColon(x: string)
    ensures Pieces(x + [':']) == Pieces(x) + [""]
  {
    assert x + [':'] == x + [':'] + [];
    PiecesAppend(x, []);
  }

  lemma DropTrailingEmptySnoc(xs: seq<string>)
    ensures DropTrailingEmpty(xs + [""]) == DropTrailingEmpty(xs)
  {
    assert (xs + [""])[..|xs|] == xs;
  }

  lemma {:induction false} SplitIgnoresTrailingColons(s: string)
    ensures DropTrailingEmpty(Pieces(s)) == DropTrailingEmpty(Pieces(TrimTrailingColons(s)))
    decreases |s|
  {
    if s != [] && s[|s| - 1] == ':' {
      var x := s[..|s| - 1];
      assert s == x + [':'];
      PiecesTrailingColon(x);
      DropTrailingEmptySnoc(Pieces(x));
      SplitIgnoresTrailingColons(x);
    }
  }

  lemma TrimColonFree(s: string)
    requires ':' !in s
    ensures TrimTrailingColons(s) == s
  {
    if s != [] { assert s[|s| - 1] in s; }
  }

  lemma TrimEmptyWhenAllColons(s: string)
    requires TrimTrailingColons(s) == []
    ensures AllColons(s)
  {
  }

  lemma DropAllEmpty(xs: seq<string>)
    requires forall k :: 0 <= k < |xs| ==> xs[k] == ""
    ensures DropTrailingEmpty(xs) == []
  {
  }

  lemma SplitOfTrimmedHoldingColon(s: string)
    requires ':' in s && !AllColons(s)
    ensures Split(s) == Split(TrimTrailingColons(s))
  {
    var t := TrimTrailingColons(s);
    SplitIgnoresTrailingColons(s);
    if ':' !in t {
      if t == [] { TrimEmptyWhenAllColons(s); }
      ColonFreePieces(t);
      assert DropTrailingEmpty([t]) == [t];
    }
  }

  /** split(":") gives the same pieces once the trailing ':' characters are
      removed, unless the text is made of ':' alone: then it gives none,
      while the empty text it trims to gives [""]. */
  lemma SplitIgnoresTrailingDelimiters(s: string)
    ensures s == [] || !AllColons(s) ==> Split(s) == Split(TrimTrailingColons(s))
    ensures s != [] && AllColons(s) ==> Split(s) == [] && Split(TrimTrailingColons(s)) == [""]
  {
    if ':' !in s {
      TrimColonFree(s);
    } else if !AllColons(s) {
      SplitOfTrimmedHoldingColon(s);
    } else {
      PiecesAllEmpty(s);
      DropAllEmpty(Pieces(s));
    }
  }

  /** The action of an event name, given independently of split: drop the
      trailing ':' characters; if a ':' remains, the action is the text after
      the last one, otherwise there is none. */
  function LastAction(s: string): Option<string>
  {
    var t := TrimTrailingColons(s);
    var i := LastColonIndex(t);
    if i < 0 then None else Some(t[i + 1..])
  }

  /** The pieces of s are those before its last ':' and the text after it. */
  lemma PiecesAtLastColon(t: string)
    requires 0 <= LastColonIndex(t)
    ensures Pieces(t) == Pieces(t[..LastColonIndex(t)]) + [t[LastColonIndex(t) + 1..]]
  {
    var i := LastColonIndex(t);
    var x, y := t[..i], t[i + 1..];
    assert t == x + [':'] + y;
    PiecesAppend(x, y);
    assert ':' !in y by {
      forall j | 0 <= j < |y| ensures y[j] != ':' { assert y[j] == t[i + 1 + j]; }
    }
  }

  /** A text that does not end in ':' but holds one splits into at least
      two pieces, the last being the non-empty text after its last ':'. */
  lemma PiecesOfTrimmed(t: string)
    requires 0 <= LastColonIndex(t) && t[|t| - 1] != ':'
    ensures var ps := Pieces(t);
      DropTrailingEmpty(ps) == ps && |ps| > 1 && ps[|ps| - 1] == t[LastColonIndex(t) + 1..]
    ensures t[LastColonIndex(t) + 1..] != "" && ':' !in t[LastColonIndex(t) + 1..]
  {
    var i := LastColonIndex(t);
    PiecesAtLastColon(t);
    assert t[|t| - 1] in t[i + 1..];
  }

  lemma SuffixSplitsAsTrimmed(s: string)
    requires ':' in s
    ensures Split(s) == DropTrailingEmpty(Pieces(TrimTrailingColons(s)))
  {
    SplitIgnoresTrailingColons(s);
  }

  lemma SuffixOfParts(s: string, parts: seq<string>, last: string)
    requires Split(s) == parts && |parts| > 1 && parts[|parts| - 1] == last
    ensures ExtractEventSuffix(s) == Some(last)
  {
  }

  lemma LastActionAfterLastColon(s: string, t: string, i: int)
    requires t == TrimTrailingColons(s) && i == LastColonIndex(t) && 0 <= i
    ensures LastAction(s) == Some(t[i + 1..])
  {
  }

  lemma SplitOfTrimmed(s: string)
    requires ':' in s && 0 <= LastColonIndex(TrimTrailingColons(s))
    ensures Split(s) == Pieces(TrimTrailingColons(s))
  {
    var t := TrimTrailingColons(s);
    SuffixSplitsAsTrimmed(s);
    PiecesOfTrimmed(t);
  }

  lemma SuffixAfterLastColon(s: string)
    requires ':' in s && 0 <= LastColonIndex(TrimTrailingColons(s))
    ensures ExtractEventSuffix(s) == LastAction(s)
  {
    var t := TrimTrailingColons(s);
    var i := LastColonIndex(t);
    SplitOfTrimmed(s);
    PiecesOfTrimmed(t);
    SuffixOfParts(s, Pieces(t), t[i + 1..]);
    LastActionAfterLastColon(s, t, i);
  }

  lemma SuffixNoColonLeft(s: string)
    requires ':' in s && LastColonIndex(TrimTrailingColons(s)) < 0
    ensures ExtractEventSuffix(s) == None && LastAction(s) == None
  {
    var t := TrimTrailingColons(s);
    SuffixSplitsAsTrimmed(s);
    assert ':' !in t by {
      assert forall j :: 0 <= j < |t| ==> t[j] != ':';
    }
    ColonFreePieces(t);
    assert |Split(s)| <= 1;
  }

  lemma SuffixWithoutColon(s: string)
    requires ':' !in s
    ensures ExtractEventSuffix(s) == None && LastAction(s) == None
  {
    var t := TrimTrailingColons(s);
    assert t == s by {
      if s != [] { assert s[|s| - 1] in s; }
    }
    assert forall j :: 0 <= j < |t| ==> t[j] != ':' by {
      forall j | 0 <= j < |t| ensures t[j] != ':' { assert t[j] in s; }
    }
  }

  /** extractEventSuffix gives the last piece that is not a trailing empty
      one, and only when some piece stands before it. */
  lemma SuffixIsLastAction(s: string)
    ensures ExtractEventSuffix(s) == LastAction(s)
    ensures ExtractEventSuffix(s).Some? ==> ExtractEventSuffix(s).value != "" && ':' !in ExtractEventSuffix(s).value
  {
    var t := TrimTrailingColons(s);
    if ':' in s && 0 <= LastColonIndex(t) {
      SuffixAfterLastColon(s);
      PiecesOfTrimmed(t);
    } else if ':' in s {
      SuffixNoColonLeft(s);
    } else {
      SuffixWithoutColon(s);
    }
  }

  /** A family and an action joined by one ':' split back into both. */
  lemma FamilyAndAction(family: string, action: string)
    requires ':' !in family && ':' !in action && action != ""
    ensures ExtractEventPrefix(family + ":" + action) == Ok(family)
    ensures ExtractEventSuffix(family + ":" + action) == Some(action)
  {
    var s := family + ":" + action;
    PiecesAppend(family, action);
    ColonFreePieces(family);
    ColonFreePieces(action);
    assert s[|family|] == ':';
  }

  /** A trailing ':' leaves no piece after the family, so there is no action. */
  lemma TrailingDelimiterGivesNoAction(family: string)
    requires ':' !in family && family != ""
    ensures ExtractEventPrefix(family + ":") == Ok(family)
    ensures ExtractEventSuffix(family + ":") == None
  {
    var s := family + ":";
    assert s == family + [':'] + [];
    PiecesAppend(family, []);
    ColonFreePieces(family);
    assert s[|family|] == ':';
    assert Pieces(s) == [family, ""];
    assert s[|family|] in s;
    assert [family, ""][..1] == [family];
    assert DropTrailingEmpty([family]) == [family];
    assert Split(s) == [family];
  }

  /** A name without ':' is a family of its own, with no action. */
  lemma NoColonIsPrefixOnly(s: string)
    requires ':' !in s
    ensures ExtractEventPrefix(s) == Ok(s)
    ensures ExtractEventSuffix(s) == None
  {
  }

  /** The command line's default event name. */
  lemma DefaultEventName()
    ensures ExtractEventPrefix("ObjectCreated:Put") == Ok("ObjectCreated")
    ensures ExtractEventSuffix("ObjectCreated:Put") == Some("Put")
    ensures ExtractEventSuffix("ObjectCreated") == None
  {
    var family, action := "ObjectCreated", "Put";
    assert ':' !in family && ':' !in action;
    FamilyAndAction(family, action);
    NoColonIsPrefixOnly(family);
    assert family + ":" + action == "ObjectCreated:Put";
  }

  /** ":" alone splits into nothing, so its family cannot be read. */
  lemma LoneDelimiter()
    ensures ExtractEventPrefix(":") == Thrown(ArrayIndexOutOfBounds)
    ensures ExtractEventSuffix(":") == None
  {
    assert ":" == [] + [':'] + [];
    PiecesAppend([], []);
    ColonFreePieces([]);
    assert ":"[0] in ":";
  }
}
