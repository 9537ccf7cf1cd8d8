/** Properties of the request script: what the keyword match depends on and
    what it ignores, how errors are ordered, and four worked examples. */
module AppRequestProperties {
  import opened Wrappers
  import opened Text
  import opened AppRequest

  // ---------------------------------------------------------------------------
  // Keyword split
  // ---------------------------------------------------------------------------

  /** An empty argument still gives one (empty) keyword, and empty pieces are kept. */
  lemma SplitExamples()
    ensures Split("") == [""]
    ensures Split("a,,b") == ["a", "", "b"]
    ensures Split(",") == ["", ""]
  {
    SplitUnique("a,,b", ["a", "", "b"]);
    SplitUnique(",", ["", ""]);
  }

  /** Two adjacent commas in the keyword argument give an empty keyword after the first piece. */
  lemma {:induction false} DoubleCommaGivesEmptyPiece(s: string, i: nat)
    requires i + 1 < |s| && s[i] == Comma && s[i + 1] == Comma
    ensures "" in Split(s)[1..]
    decreases i
  {
    var rest := Split(s[1..]);
    if i == 0 {
      assert s[1..][0] == Comma;
      assert rest[0] == "";
      assert Split(s)[1..] == rest;
    } else {
      DoubleCommaGivesEmptyPiece(s[1..], i - 1);
      if s[0] == Comma {
        assert Split(s)[1..] == rest;
      } else {
        assert Split(s)[1..] == rest[1..];
      }
    }
  }

  // ---------------------------------------------------------------------------
  // Handle
  // ---------------------------------------------------------------------------

  /** Exactly one `@` is stripped, and a handle without `@` stays unassigned. */
  lemma HandleExamples()
    ensures ParseHandle("@@kol") == Some("@kol")
    ensures ParseHandle("@") == Some("")
    ensures ParseHandle("kol") == None
    ensures ParseHandle("") == None
  {
    assert "@@kol"[1..] == "@kol";
  }

  /** A handle with `@` is requested under its name; one without is requested
      as "undefined", so "@abc" and "abc" do not reach the same endpoint. */
  lemma HandleTargets(secrets: map<string, string>)
    ensures BuildRequest(ParseHandle("@abc"), secrets).url == Endpoint + "abc"
    ensures BuildRequest(ParseHandle("abc"), secrets).url == Endpoint + "undefined"
    ensures BuildRequest(ParseHandle("@abc"), secrets).url != BuildRequest(ParseHandle("abc"), secrets).url
  {
    assert "@abc"[1..] == "abc";
    assert (Endpoint + "abc")[|Endpoint|] == 'a';
    assert (Endpoint + "undefined")[|Endpoint|] == 'u';
  }

  /** Different assigned handles are requested at different URLs. */
  lemma DistinctHandlesDistinctUrls(h1: string, h2: string, secrets: map<string, string>)
    requires h1 != h2
    ensures BuildRequest(Some(h1), secrets).url != BuildRequest(Some(h2), secrets).url
  {
  }

  /** An unassigned handle is requested at the same URL as the account `@undefined`. */
  lemma UnassignedHandleAsksForUndefined(arg: string, secrets: map<string, string>)
    requires |arg| == 0 || arg[0] != '@'
    ensures BuildRequest(ParseHandle(arg), secrets) == BuildRequest(ParseHandle("@undefined"), secrets)
  {
    assert "@undefined"[1..] == "undefined";
  }

  // ---------------------------------------------------------------------------
  // Keyword matcher
  // ---------------------------------------------------------------------------

  /** With no tweets nothing matches, whatever the keywords. */
  lemma NoTweetsNoMatch(keywords: seq<string>)
    ensures !AnyMatch(keywords, [])
  {
  }

  /** The flag over a concatenation of keyword lists is the disjunction of the
      flags: once raised it stays raised. */
  lemma AnyMatchAppend(ks1: seq<string>, ks2: seq<string>, tweets: seq<TweetValue>)
    ensures AnyMatch(ks1 + ks2, tweets) <==> AnyMatch(ks1, tweets) || AnyMatch(ks2, tweets)
  {
    var all := ks1 + ks2;
    if AnyMatch(ks1, tweets) {
      var k :| 0 <= k < |ks1| && MentionedIn(tweets, ks1[k]);
      assert all[k] == ks1[k];
    }
    if AnyMatch(ks2, tweets) {
      var k :| 0 <= k < |ks2| && MentionedIn(tweets, ks2[k]);
      assert all[|ks1| + k] == ks2[k];
    }
    if AnyMatch(all, tweets) {
      var k :| 0 <= k < |all| && MentionedIn(tweets, all[k]);
      if k >= |ks1| {
        assert all[k] == ks2[k - |ks1|];
      } else {
        assert all[k] == ks1[k];
      }
    }
  }

  /** Only which keywords occur matters, not their order or repetition. */
  lemma KeywordOrderIrrelevant(ks1: seq<string>, ks2: seq<string>, tweets: seq<TweetValue>)
    requires forall k :: k in ks1 <==> k in ks2
    ensures AnyMatch(ks1, tweets) <==> AnyMatch(ks2, tweets)
  {
    forall a: seq<string>, b: seq<string> | (forall k :: k in a <==> k in b) && AnyMatch(a, tweets)
      ensures AnyMatch(b, tweets)
    {
      var i :| 0 <= i < |a| && MentionedIn(tweets, a[i]);
      assert a[i] in b;
      var j :| 0 <= j < |b| && b[j] == a[i];
    }
  }

  /** The empty keyword is included in every string, so it matches as soon as
      there is one string tweet. */
  lemma EmptyKeywordMatches(keywords: seq<string>, tweets: seq<TweetValue>, j: nat)
    requires "" in keywords
    requires j < |tweets| && tweets[j].Str?
    ensures AnyMatch(keywords, tweets)
  {
    assert OccursAt(LowerStr(tweets[j].text), LowerStr(""), 0);
    var k :| 0 <= k < |keywords| && keywords[k] == "";
    assert MentionedIn(tweets, keywords[k]);
  }

  /** `b` is tweet `a` with a case change, a non-string staying a non-string. */
  ghost predicate TweetCaseChange(a: TweetValue, b: TweetValue)
  {
    (a.NonString? && b.NonString?) || (a.Str? && b.Str? && CaseChange(a.text, b.text))
  }

  /** Element-wise case changes of two lists. */
  ghost predicate KeywordsCaseChange(a: seq<string>, b: seq<string>)
  {
    |a| == |b| && forall i :: 0 <= i < |a| ==> CaseChange(a[i], b[i])
  }

  ghost predicate TweetsCaseChange(a: seq<TweetValue>, b: seq<TweetValue>)
  {
    |a| == |b| && forall i :: 0 <= i < |a| ==> TweetCaseChange(a[i], b[i])
  }

  /** Keyword and tweet lists that agree once lower-cased. */
  ghost predicate SameLower(ks1: seq<string>, ks2: seq<string>, ts1: seq<TweetValue>, ts2: seq<TweetValue>)
  {
    |ks1| == |ks2| && |ts1| == |ts2| &&
    (forall i :: 0 <= i < |ks1| ==> LowerStr(ks1[i]) == LowerStr(ks2[i])) &&
    (forall j :: 0 <= j < |ts1| ==> ts1[j].Str? == ts2[j].Str?) &&
    (forall j :: 0 <= j < |ts1| && ts1[j].Str? ==> LowerStr(ts1[j].text) == LowerStr(ts2[j].text))
  }

  /** Lists that agree once lower-cased carry a match from one to the other. */
  lemma MatchSameLower(ks1: seq<string>, ks2: seq<string>, ts1: seq<TweetValue>, ts2: seq<TweetValue>)
    requires SameLower(ks1, ks2, ts1, ts2)
    requires AnyMatch(ks1, ts1)
    ensures AnyMatch(ks2, ts2)
  {
    var k :| 0 <= k < |ks1| && MentionedIn(ts1, ks1[k]);
    var j :| 0 <= j < |ts1| && ts1[j].Str? && Mentions(ts1[j].text, ks1[k]);
    assert Mentions(ts2[j].text, ks2[k]);
    assert MentionedIn(ts2, ks2[k]);
  }

  /** Applying any ASCII case change to any keyword and any tweet changes
      neither the flag nor whether the script throws. */
  lemma CaseInsensitive(ks1: seq<string>, ks2: seq<string>, ts1: seq<TweetValue>, ts2: seq<TweetValue>)
    requires KeywordsCaseChange(ks1, ks2)
    requires TweetsCaseChange(ts1, ts2)
    ensures AnyMatch(ks1, ts1) <==> AnyMatch(ks2, ts2)
    ensures HasNonString(ts1) <==> HasNonString(ts2)
  {
    forall i | 0 <= i < |ks1| ensures LowerStr(ks1[i]) == LowerStr(ks2[i]) {
      CaseChangeSameLower(ks1[i], ks2[i]);
    }
    forall j | 0 <= j < |ts1| && ts1[j].Str? ensures LowerStr(ts1[j].text) == LowerStr(ts2[j].text) {
      CaseChangeSameLower(ts1[j].text, ts2[j].text);
    }
    assert SameLower(ks1, ks2, ts1, ts2);
    assert SameLower(ks2, ks1, ts2, ts1);
    if AnyMatch(ks1, ts1) {
      MatchSameLower(ks1, ks2, ts1, ts2);
    }
    if AnyMatch(ks2, ts2) {
      MatchSameLower(ks2, ks1, ts2, ts1);
    }
  }

  /** A case change of the keyword argument is a case change of each of its pieces. */
  lemma {:induction false} SplitCaseChange(a: string, b: string)
    requires CaseChange(a, b)
    ensures KeywordsCaseChange(Split(a), Split(b))
    decreases |a|
  {
    if a != [] {
      assert CaseChange(a[1..], b[1..]);
      SplitCaseChange(a[1..], b[1..]);
      var ra, rb := Split(a[1..]), Split(b[1..]);
      assert a[0] == Comma <==> b[0] == Comma;
      if a[0] != Comma {
        var fa, fb := [a[0]] + ra[0], [b[0]] + rb[0];
        assert CaseChange(fa, fb) by {
          forall i | 0 <= i < |fa|
            ensures fb[i] == fa[i] || fb[i] == Lower(fa[i]) || fb[i] == Upper(fa[i])
          {
            if i > 0 {
              assert fa[i] == ra[0][i - 1] && fb[i] == rb[0][i - 1];
            }
          }
        }
      }
    }
  }

  /** The script's result does not move under an ASCII case change of the
      keyword argument and of the tweets. */
  lemma ScriptCaseInsensitive(args1: seq<string>, args2: seq<string>, secrets: map<string, string>,
                              r1: Response, r2: Response)
    requires |args1| >= 4 && |args2| == |args1| && args2[2] == args1[2]
    requires CaseChange(args1[3], args2[3])
    requires r1.error == r2.error && TweetsCaseChange(TweetsOf(r1), TweetsOf(r2))
    ensures Expected(args1, secrets, r1) == Expected(args2, secrets, r2)
  {
    SplitCaseChange(args1[3], args2[3]);
    CaseInsensitive(Split(args1[3]), Split(args2[3]), TweetsOf(r1), TweetsOf(r2));
  }

  // ---------------------------------------------------------------------------
  // Errors and the response
  // ---------------------------------------------------------------------------

  /** An empty API key throws before any request is sent, whatever the response. */
  lemma EmptyApiKeyThrowsFirst(args: seq<string>, secrets: map<string, string>, response: Response)
    requires |args| >= 4 && ApiKeyEmpty(secrets)
    ensures Expected(args, secrets, response) == Outcome(None, Failure(ApiKeyNotSet))
  {
  }

  /** A request is sent exactly when both arguments are present and the key
      check passes; it is then the request built from `args[2]` and the
      secrets, whatever happens afterwards. */
  lemma SentExactlyPastChecks(args: seq<string>, secrets: map<string, string>, response: Response)
    ensures Expected(args, secrets, response).sent.Some? <==> |args| >= 4 && !ApiKeyEmpty(secrets)
    ensures Expected(args, secrets, response).sent.Some? ==>
              Expected(args, secrets, response).sent.value == BuildRequest(ParseHandle(args[2]), secrets)
    ensures Expected(args, secrets, response).sent.None? ==> Expected(args, secrets, response).result.Failure?
  {
  }

  /** A response that reports an error is read as no tweets, so the result is 0. */
  lemma ErrorResponseGivesZero(args: seq<string>, secrets: map<string, string>, response: Response)
    requires |args| >= 4 && !ApiKeyEmpty(secrets) && response.error
    ensures Expected(args, secrets, response).result == Success(0)
  {
  }

  /** A keyword argument with two adjacent commas matches every non-empty list of string tweets. */
  lemma DoubleCommaMatchesAnyTweet(args: seq<string>, secrets: map<string, string>, response: Response, i: nat)
    requires |args| >= 4 && !ApiKeyEmpty(secrets)
    requires i + 1 < |args[3]| && args[3][i] == Comma && args[3][i + 1] == Comma
    requires !response.error && |response.data| > 0
    requires forall j :: 0 <= j < |response.data| ==> response.data[j].tweet.Str?
    ensures Expected(args, secrets, response).result == Success(1)
  {
    DoubleCommaGivesEmptyPiece(args[3], i);
    var keywords := Split(args[3]);
    assert "" in keywords;
    EmptyKeywordMatches(keywords, TweetsOf(response), 0);
  }

  /** The script as written throws on every response, a well-formed one included. */
  lemma AsWrittenAlwaysThrows()
    ensures TweetsAsWritten(Response(false, [Post(Str("gm"))])) == Failure(ReferenceError("mainlineRequest"))
    ensures TweetsOf(Response(false, [Post(Str("gm"))])) == [Str("gm")]
  {
  }

  /** Sanity check: the number handed to the encoder reads back as the flag. */
  lemma FlagRoundTrip(found: bool)
    ensures DecodeFlag(FlagValue(found)) == found
  {
  }

  // ---------------------------------------------------------------------------
  // Scenarios
  // ---------------------------------------------------------------------------

  const Key: string := "key"
  const KeySecrets: map<string, string> := map[ApiKeyName := Key]

  /** Past the argument and key checks, with string tweets only, the script
      returns the request and the flag of `AnyMatch`. */
  lemma ExpectedOnWellFormedInput(args: seq<string>, secrets: map<string, string>, response: Response)
    requires |args| >= 4 && !ApiKeyEmpty(secrets) && !HasNonString(TweetsOf(response))
    ensures Expected(args, secrets, response)
         == Outcome(Some(BuildRequest(ParseHandle(args[2]), secrets)),
                    Success(FlagValue(AnyMatch(Split(args[3]), TweetsOf(response)))))
  {
  }

  /** A witness pair gives a match. */
  lemma MatchWitness(keywords: seq<string>, tweets: seq<TweetValue>, k: nat, j: nat)
    requires k < |keywords| && j < |tweets| && tweets[j].Str?
    requires Mentions(tweets[j].text, keywords[k])
    ensures AnyMatch(keywords, tweets)
  {
    assert MentionedIn(tweets, keywords[k]);
  }

  lemma LowerAirdrop()
    ensures LowerStr("airdrop") == "airdrop"
  {
    var needle := LowerStr("airdrop");
    assert needle[0] == 'a' && needle[1] == 'i' && needle[2] == 'r' && needle[3] == 'd';
    assert needle[4] == 'r' && needle[5] == 'o' && needle[6] == 'p';
  }

  /** Lower-casing commutes with taking a slice. */
  lemma LowerSlice(t: string, i: nat, j: nat)
    requires i <= j <= |t|
    ensures LowerStr(t)[i..j] == LowerStr(t[i..j])
  {
  }

  lemma LowerAirdropShouted()
    ensures LowerStr("AIRDROP") == "airdrop"
  {
    var low := LowerStr("AIRDROP");
    assert low[0] == 'a' && low[1] == 'i' && low[2] == 'r' && low[3] == 'd';
    assert low[4] == 'r' && low[5] == 'o' && low[6] == 'p';
  }

  /** "Big AIRDROP today!" mentions "airdrop". */
  lemma AirdropMentioned()
    ensures Mentions("Big AIRDROP today!", "airdrop")
  {
    var t := "Big AIRDROP today!";
    LowerAirdrop();
    LowerAirdropShouted();
    LowerSlice(t, 4, 11);
    assert t[4..11] == "AIRDROP";
    assert OccursAt(LowerStr("Big AIRDROP today!"), LowerStr("airdrop"), 4);
  }

  /** Neither "gm" nor "wagmi" mentions "moon". */
  lemma MoonNotMentioned()
    ensures !Mentions("gm", "moon") && !Mentions("wagmi", "moon")
  {
    var moon := LowerStr("moon");
    assert moon[0] == 'm';
    var w := LowerStr("wagmi");
    assert w[0] == 'w' && w[1] == 'a';
  }

  lemma SplitAirdropLaunch()
    ensures Split("airdrop,launch") == ["airdrop", "launch"]
  {
    SplitUnique("airdrop,launch", ["airdrop", "launch"]);
  }

  /** `@kol1`, "airdrop,launch", tweets "Big AIRDROP today!" and "gm": result 1. */
  lemma ScenarioMatch()
    ensures Expected(["", "", "@kol1", "airdrop,launch"], KeySecrets,
                     Response(false, [Post(Str("Big AIRDROP today!")), Post(Str("gm"))]))
         == Outcome(Some(Request(Endpoint + "kol1", map[ApiKeyHeader := Some(Key)])), Success(1))
  {
    var args := ["", "", "@kol1", "airdrop,launch"];
    var response := Response(false, [Post(Str("Big AIRDROP today!")), Post(Str("gm"))]);
    var tweets := TweetsOf(response);
    assert tweets == [Str("Big AIRDROP today!"), Str("gm")];
    assert !HasNonString(tweets);
    SplitAirdropLaunch();
    AirdropMentioned();
    MatchWitness(["airdrop", "launch"], tweets, 0, 0);
    assert "@kol1"[1..] == "kol1";
    ExpectedOnWellFormedInput(args, KeySecrets, response);
  }

  /** `kol2`, "moon", tweets "gm" and "wagmi": result 0, and the handle goes out as "undefined". */
  lemma ScenarioNoMatch()
    ensures Expected(["", "", "kol2", "moon"], KeySecrets,
                     Response(false, [Post(Str("gm")), Post(Str("wagmi"))]))
         == Outcome(Some(Request(Endpoint + "undefined", map[ApiKeyHeader := Some(Key)])), Success(0))
  {
    var args := ["", "", "kol2", "moon"];
    var response := Response(false, [Post(Str("gm")), Post(Str("wagmi"))]);
    var tweets := TweetsOf(response);
    assert tweets == [Str("gm"), Str("wagmi")];
    SplitUnique("moon", ["moon"]);
    MoonNotMentioned();
    assert !MentionedIn(tweets, "moon");
    assert !AnyMatch(Split(args[3]), tweets);
    ExpectedOnWellFormedInput(args, KeySecrets, response);
  }

  /** `kol3`, "x,y", a response that reports an error: result 0 and nothing thrown. */
  lemma ScenarioRemoteError()
    ensures Expected(["", "", "kol3", "x,y"], KeySecrets, Response(true, []))
         == Outcome(Some(Request(Endpoint + "undefined", map[ApiKeyHeader := Some(Key)])), Success(0))
  {
  }

  /** A record without a string `tweet` among valid ones makes the filter throw,
      after the request has been sent. */
  lemma ScenarioMalformedRecord()
    ensures Expected(["", "", "@kol4", "gm"], KeySecrets,
                     Response(false, [Post(Str("gm")), Post(NonString), Post(Str("gn"))]))
         == Outcome(Some(Request(Endpoint + "kol4", map[ApiKeyHeader := Some(Key)])), Failure(TweetNotString))
  {
    var tweets := TweetsOf(Response(false, [Post(Str("gm")), Post(NonString), Post(Str("gn"))]));
    assert tweets[1].NonString?;
    assert "@kol4"[1..] == "kol4";
  }
}
