/** The request script of the keyword oracle: read a handle and a keyword list
    from the positional arguments, check the API key, build the HTTP request,
    turn the response into a list of tweets, decide whether some tweet mentions
    some keyword (ignoring ASCII case), and hand the flag to the encoder.

    The HTTP call itself is not modelled: the response it returns is an input
    of `Run`, and the request the script would send is part of `Run`'s output. */
module AppRequest {
  import opened Wrappers
  import opened Text

  // ---------------------------------------------------------------------------
  // Data model
  // ---------------------------------------------------------------------------

  /** The value of a record's `tweet` field: a string, or anything else
      (missing, `null`, a number, an object), which has no `toLowerCase`. */
  datatype TweetValue = Str(text: string) | NonString

  /** One element of the response's `data` array. */
  datatype Post = Post(tweet: TweetValue)

  /** What the HTTP call resolves to; `error` is false when the field is absent. */
  datatype Response = Response(error: bool, data: seq<Post>)

  /** The request the script asks the runtime to send. A header whose value is
      `undefined` has value `None`. */
  datatype Request = Request(url: string, headers: map<string, Option<string>>)

  /** What one run of the script leaves behind: the request it sent (`None`
      when it threw before line 23), and either the number handed to
      `Functions.encodeUint256` or the exception it threw. */
  datatype Outcome = Outcome(sent: Option<Request>, result: Result<nat, Error>)

  /** The exceptions the script can throw. */
  datatype Error =
    | MissingArgument(index: nat)   // TypeError: `args[index]` is undefined
    | ApiKeyNotSet                  // "MAINLINE_API_KEY environment variable not set."
    | TweetNotString                // TypeError: `toLowerCase` of a non-string tweet
    | ReferenceError(name: string)  // an identifier that was never declared

  const Endpoint: string := "https://app.getmainline.com/api/tweets/handle/"
  const ApiKeyHeader: string := "X-Api-Key"
  const ApiKeyName: string := "apiKey"

  // ---------------------------------------------------------------------------
  // Arguments and credentials (lines 1-10)
  // ---------------------------------------------------------------------------

  /** The handle taken from `args[2]`: the argument without its first character
      when that character is `@`; otherwise the variable stays unassigned. */
  function ParseHandle(arg: string): (handle: Option<string>)
    ensures handle.Some? <==> |arg| > 0 && arg[0] == '@'
    ensures handle.Some? ==> arg == ['@'] + handle.value
  {
    if |arg| > 0 && arg[0] == '@' then
      assert arg == ['@'] + arg[1..];
      Some(arg[1..])
    else None
  }

  /** The request of lines 23-26: the endpoint followed by the handle as the
      template literal renders it (an unassigned handle as "undefined"), and a
      single `X-Api-Key` header carrying `secrets.apiKey`, `undefined` when absent. */
  function BuildRequest(handle: Option<string>, secrets: map<string, string>): (request: Request)
    ensures |request.url| >= |Endpoint| && request.url[..|Endpoint|] == Endpoint
    ensures handle.Some? ==> request.url[|Endpoint|..] == handle.value
    ensures handle.None? ==> request.url[|Endpoint|..] == "undefined"
    ensures request.headers.Keys == {ApiKeyHeader}
    ensures request.headers[ApiKeyHeader].Some? <==> ApiKeyName in secrets
    ensures request.headers[ApiKeyHeader].Some? ==> request.headers[ApiKeyHeader].value == secrets[ApiKeyName]
  {
    var shown := match handle case Some(h) => h case None => "undefined";
    var key := if ApiKeyName in secrets then Some(secrets[ApiKeyName]) else None;
    Request(Endpoint + shown, map[ApiKeyHeader := key])
  }

  /** `secrets.apiKey == ""`: the check throws exactly when the header of the
      request would carry the empty string; an absent key passes it, since
      `undefined == ""` is false. */
  predicate ApiKeyEmpty(secrets: map<string, string>)
    ensures ApiKeyEmpty(secrets) <==> BuildRequest(None, secrets).headers[ApiKeyHeader] == Some("")
    ensures ApiKeyName !in secrets ==> !ApiKeyEmpty(secrets)
  {
    ApiKeyName in secrets && secrets[ApiKeyName] == ""
  }

  // ---------------------------------------------------------------------------
  // Response normalisation (lines 30-37)
  // ---------------------------------------------------------------------------

  /** The `tweet` field of every record, in order. */
  function TweetFields(data: seq<Post>): (tweets: seq<TweetValue>)
    ensures |tweets| == |data|
    ensures forall i :: 0 <= i < |data| ==> tweets[i] == data[i].tweet
  {
    if data == [] then [] else [data[0].tweet] + TweetFields(data[1..])
  }

  /** The tweets the script means to collect: every record's `tweet` field in
      order, or none when the response reports an error. */
  function TweetsOf(response: Response): (tweets: seq<TweetValue>)
    ensures response.error ==> tweets == []
    ensures !response.error ==> |tweets| == |response.data|
    ensures !response.error ==> forall i :: 0 <= i < |tweets| ==> tweets[i] == response.data[i].tweet
  {
    if response.error then [] else TweetFields(response.data)
  }

  /** Lines 30-37 as written: the condition reads `mainlineRequest.error`, an
      identifier that is never declared, so evaluating it throws whatever the
      response is. */
  function TweetsAsWritten(response: Response): (r: Result<seq<TweetValue>, Error>)
    ensures r.Failure? && r.error == ReferenceError("mainlineRequest")
  {
    Failure(ReferenceError("mainlineRequest"))
  }

  /** Lines 30-37 as intended (`mainlineResponse.error`, `mainlineResponse.data[i]`):
      push each record's `tweet` field, as it is, in order; nothing on error. */
  method ExtractTweets(response: Response) returns (tweets: seq<TweetValue>)
    ensures response.error ==> tweets == []
    ensures !response.error ==> |tweets| == |response.data|
    ensures !response.error ==> forall i :: 0 <= i < |tweets| ==> tweets[i] == response.data[i].tweet
  {
    tweets := [];
    if !response.error {
      for i := 0 to |response.data|
        invariant |tweets| == i
        invariant forall k :: 0 <= k < i ==> tweets[k] == response.data[k].tweet
      {
        tweets := tweets + [response.data[i].tweet];
      }
    }
  }

  // ---------------------------------------------------------------------------
  // Keyword matcher (lines 39-48)
  // ---------------------------------------------------------------------------

  /** Tweet `t` mentions keyword `k`: lower-cased, `k` is a substring of `t`. */
  ghost predicate Mentions(t: string, k: string)
  {
    Occurs(LowerStr(t), LowerStr(k))
  }

  /** Some tweet of the list is a string that mentions `k`. */
  ghost predicate MentionedIn(tweets: seq<TweetValue>, k: string)
  {
    exists j :: 0 <= j < |tweets| && tweets[j].Str? && Mentions(tweets[j].text, k)
  }

  /** Some keyword is mentioned by some tweet: the meaning of `keywordsFound`. */
  ghost predicate AnyMatch(keywords: seq<string>, tweets: seq<TweetValue>)
  {
    exists k :: 0 <= k < |keywords| && MentionedIn(tweets, keywords[k])
  }

  /** Some tweet is not a string. */
  ghost predicate HasNonString(tweets: seq<TweetValue>)
  {
    exists j :: 0 <= j < |tweets| && tweets[j].NonString?
  }

  /** The filter of lines 42-44: the tweets that, lower-cased, include the
      lower-cased keyword. The callback throws on the first tweet that is not a
      string. The contract fixes the kept tweets by membership and the result's
      non-emptiness, which is all the flag loop reads; the body keeps them in
      order and with repeats, as `Array.prototype.filter` does. */
  function FilterMatching(tweets: seq<TweetValue>, keyword: string): (r: Result<seq<string>, Error>)
    ensures r.Failure? <==> HasNonString(tweets)
    ensures r.Failure? ==> r.error == TweetNotString
    ensures r.Success? ==> forall t :: t in r.value <==> Str(t) in tweets && Mentions(t, keyword)
    ensures r.Success? ==> (|r.value| > 0 <==> MentionedIn(tweets, keyword))
  {
    if tweets == [] then Success([])
    else
      assert tweets == [tweets[0]] + tweets[1..];
      match tweets[0]
      case NonString => Failure(TweetNotString)
      case Str(t) =>
        var rest := FilterMatching(tweets[1..], keyword);
        if rest.Failure? then rest
        else
          if Includes(LowerStr(t), LowerStr(keyword)) then Success([t] + rest.value) else rest
  }

  /** Lines 40-48: raise `keywordsFound` when some keyword's filter is non-empty.
      It fails exactly when there is a keyword to try and a tweet that is not a
      string; otherwise it reports whether some tweet mentions some keyword. */
  method KeywordsFound(keywords: seq<string>, tweets: seq<TweetValue>) returns (r: Result<bool, Error>)
    ensures r.Failure? <==> |keywords| > 0 && HasNonString(tweets)
    ensures r.Failure? ==> r.error == TweetNotString
    ensures r.Success? ==> (r.value <==> AnyMatch(keywords, tweets))
  {
    var found := false;
    for i := 0 to |keywords|
      invariant i > 0 ==> !HasNonString(tweets)
      invariant found <==> AnyMatch(keywords[..i], tweets)
    {
      var included := FilterMatching(tweets, keywords[i]);
      if included.Failure? {
        return Failure(included.error);
      }
      if |included.value| > 0 {
        found := true;
      }
      AnyMatchStep(keywords, i, tweets);
    }
    assert keywords[..|keywords|] == keywords;
    r := Success(found);
  }

  /** Adding keyword `keywords[i]` adds exactly the tweets that mention it. */
  lemma AnyMatchStep(keywords: seq<string>, i: nat, tweets: seq<TweetValue>)
    requires i < |keywords|
    ensures AnyMatch(keywords[..i + 1], tweets) <==> AnyMatch(keywords[..i], tweets) || MentionedIn(tweets, keywords[i])
  {
    var prefix := keywords[..i + 1];
    assert forall k :: 0 <= k < i ==> prefix[k] == keywords[..i][k];
    assert prefix[i] == keywords[i];
  }

  // ---------------------------------------------------------------------------
  // Result encoding (line 50)
  // ---------------------------------------------------------------------------

  /** The number `Functions.encodeUint256(keywordsFound)` encodes: 1 for a match,
      0 otherwise. The encoder's byte layout is not modelled. */
  function FlagValue(found: bool): (v: nat)
    ensures v <= 1
    ensures v == 1 <==> found
  {
    if found then 1 else 0
  }

  /** Not part of the script: a reading of the number as a flag, kept only as
      a sanity check that `FlagValue` loses nothing. */
  function DecodeFlag(v: nat): bool
  {
    v != 0
  }

  // ---------------------------------------------------------------------------
  // The whole script
  // ---------------------------------------------------------------------------

  /** What the script (with lines 31 and 33 as intended) sends and returns or
      throws, stated by the specification predicates rather than by its loops. */
  ghost function Expected(args: seq<string>, secrets: map<string, string>, response: Response): Outcome
  {
    if |args| < 3 then Outcome(None, Failure(MissingArgument(2)))
    else if |args| < 4 then Outcome(None, Failure(MissingArgument(3)))
    else if ApiKeyEmpty(secrets) then Outcome(None, Failure(ApiKeyNotSet))
    else
      var request := BuildRequest(ParseHandle(args[2]), secrets);
      var tweets := TweetsOf(response);
      if HasNonString(tweets) then Outcome(Some(request), Failure(TweetNotString))
      else Outcome(Some(request), Success(FlagValue(AnyMatch(Split(args[3]), tweets))))
  }

  /** The script, step by step, with the HTTP response given as an input. */
  method Run(args: seq<string>, secrets: map<string, string>, response: Response) returns (o: Outcome)
    ensures o == Expected(args, secrets, response)
  {
    if |args| < 3 {
      return Outcome(None, Failure(MissingArgument(2)));
    }
    var handle := ParseHandle(args[2]);
    if |args| < 4 {
      return Outcome(None, Failure(MissingArgument(3)));
    }
    var keywords := Split(args[3]);
    if ApiKeyEmpty(secrets) {
      return Outcome(None, Failure(ApiKeyNotSet));
    }
    var request := BuildRequest(handle, secrets);
    var tweets := ExtractTweets(response);
    assert tweets == TweetsOf(response);
    var found := KeywordsFound(keywords, tweets);
    if found.Failure? {
      return Outcome(Some(request), Failure(found.error));
    }
    o := Outcome(Some(request), Success(FlagValue(found.value)));
  }
}
