/**
 * The source registry and its error taxonomy (src/sources/mod.rs), with the
 * Twitter source's credential loading (src/sources/twitter.rs).
 */
module Sources {
  import opened Wrappers
  import opened Text
  import opened Types

  /** `std::env::VarError`. */
  datatype VarError = NotPresent | NotUnicode(raw: string)

  /** The outcome of `env::var(name)`. */
  datatype EnvVar = Set(value: string) | Unset(error: VarError)

  /** A store failure (`diesel::result::Error`), carried opaquely. */
  datatype DbError = DbError(description: string)

  /** A remote API failure (`egg_mode::error::Error`), carried opaquely. */
  datatype EggError = EggError(description: string)

  datatype LoadError = Env(cause: VarError)

  datatype DeleteError =
    | AlreadyDone
    | WrongSource
    | Unimplemented
    | Database(db: DbError)
    | TwitterError(twitter: EggError)

  /** `From<VarError> for LoadError`. */
  function LoadErrorFromVar(e: VarError): LoadError {
    Env(e)
  }

  /** `From<DieselError> for DeleteError`. */
  function DeleteErrorFromDb(e: DbError): DeleteError {
    Database(e)
  }

  /** `From<EggError> for DeleteError`. */
  function DeleteErrorFromEgg(e: EggError): DeleteError {
    TwitterError(e)
  }

  /**
   * The conversions lose nothing and never collide: a store failure and a
   * remote failure stay apart, and neither reads as one of the three
   * expected outcomes (already done, wrong source, unimplemented).
   */
  lemma ErrorConversions(v: VarError, d1: DbError, d2: DbError, g1: EggError, g2: EggError)
    ensures LoadErrorFromVar(v).cause == v
    ensures DeleteErrorFromDb(d1) == DeleteErrorFromDb(d2) <==> d1 == d2
    ensures DeleteErrorFromEgg(g1) == DeleteErrorFromEgg(g2) <==> g1 == g2
    ensures DeleteErrorFromDb(d1) != DeleteErrorFromEgg(g1)
    ensures DeleteErrorFromDb(d1) !in {AlreadyDone, WrongSource, Unimplemented}
    ensures DeleteErrorFromEgg(g1) !in {AlreadyDone, WrongSource, Unimplemented}
  {
  }

  /** The OAuth consumer and access key pairs. */
  datatype Token = Token(consumerKey: string, consumerSecret: string, accessKey: string, accessSecret: string)

  /** A loaded Twitter source: its token and the account's id. */
  datatype TwitterSource = TwitterSource(token: Token, userId: U64)

  datatype LoadResult = Loaded(source: TwitterSource) | LoadFailed(error: LoadError)

  const CREDENTIAL_VARS: seq<string> :=
    ["TWITTER_CONSUMER_KEY", "TWITTER_CONSUMER_SECRET", "TWITTER_ACCESS_TOKEN_KEY", "TWITTER_ACCESS_TOKEN_SECRET"]

  /** The user id is parsed with `expect` once every variable is read. */
  predicate UserIdParses(env: string -> EnvVar) {
    (forall name <- CREDENTIAL_VARS + ["TWITTER_USER_ID"] :: env(name).Set?)
      ==> ParseU64(env("TWITTER_USER_ID").value).Some?
  }

  /** `Twitter::load_unboxed`: the variables are read in order and the first one missing is the error. */
  function LoadTwitter(env: string -> EnvVar): (r: LoadResult)
    requires UserIdParses(env)
    ensures r.LoadFailed? <==> exists name <- CREDENTIAL_VARS + ["TWITTER_USER_ID"] :: env(name).Unset?
    ensures r.Loaded? ==> Some(r.source.userId) == ParseU64(env("TWITTER_USER_ID").value)
  {
    var names := CREDENTIAL_VARS + ["TWITTER_USER_ID"];
    if env(names[0]).Unset? then LoadFailed(Env(env(names[0]).error))
    else if env(names[1]).Unset? then LoadFailed(Env(env(names[1]).error))
    else if env(names[2]).Unset? then LoadFailed(Env(env(names[2]).error))
    else if env(names[3]).Unset? then LoadFailed(Env(env(names[3]).error))
    else if env(names[4]).Unset? then LoadFailed(Env(env(names[4]).error))
    else
      assert forall name <- names :: env(name).Set? by {
        assert names == [names[0], names[1], names[2], names[3], names[4]];
      }
      Loaded(TwitterSource(
        Token(env(names[0]).value, env(names[1]).value, env(names[2]).value, env(names[3]).value),
        ParseU64(env(names[4]).value).value))
  }

  /** The sources that loaded, in order. */
  function LoadedSources(attempts: seq<LoadResult>): (r: seq<TwitterSource>)
    ensures |r| <= |attempts|
  {
    if attempts == [] then []
    else
      var rest := LoadedSources(attempts[1..]);
      if attempts[0].Loaded? then [attempts[0].source] + rest else rest
  }

  /** A source is available exactly when its load succeeded. */
  lemma {:induction false} LoadedSourcesExact(attempts: seq<LoadResult>, s: TwitterSource)
    ensures s in LoadedSources(attempts) <==> Loaded(s) in attempts
  {
    if attempts != [] {
      LoadedSourcesExact(attempts[1..], s);
      assert Loaded(s) in attempts <==> attempts[0] == Loaded(s) || Loaded(s) in attempts[1..];
    }
  }

  /**
   * `all_available`: never fails; each source whose load errs is reported
   * and skipped, each loaded one is appended in order.
   */
  method AllAvailable(attempts: seq<LoadResult>) returns (sources: seq<TwitterSource>, reported: seq<LoadError>)
    ensures sources == LoadedSources(attempts)
    ensures |sources| + |reported| == |attempts|
    ensures forall e <- reported :: LoadFailed(e) in attempts
  {
    sources, reported := [], [];
    var i := 0;
    while i < |attempts|
      invariant 0 <= i <= |attempts|
      invariant LoadedSources(attempts) == sources + LoadedSources(attempts[i..])
      invariant |sources| + |reported| == i
      invariant forall e <- reported :: LoadFailed(e) in attempts[..i]
    {
      assert attempts[..i + 1] == attempts[..i] + [attempts[i]];
      assert attempts[i..][1..] == attempts[i + 1..];
      assert attempts[i..][0] == attempts[i];
      assert LoadedSources(attempts[i..]) ==
        (if attempts[i].Loaded? then [attempts[i].source] else []) + LoadedSources(attempts[i + 1..]);
      if attempts[i].LoadFailed? {
        reported := reported + [attempts[i].error];
      } else {
        sources := sources + [attempts[i].source];
      }
      i := i + 1;
    }
    assert attempts[i..] == [] && attempts[..i] == attempts;
  }

  /** The registry as built: the Twitter source alone. */
  method AvailableSources(env: string -> EnvVar) returns (sources: seq<TwitterSource>)
    requires UserIdParses(env)
    ensures |sources| <= 1
    ensures sources == [] <==> LoadTwitter(env).LoadFailed?
  {
    var reported;
    sources, reported := AllAvailable([LoadTwitter(env)]);
    assert [LoadTwitter(env)][1..] == [];
  }
}
