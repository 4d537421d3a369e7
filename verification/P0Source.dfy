/** The source record of a transport report: resolved against the checkout, or made up when that fails. */
module P0Source {
  import opened Sequences
  import opened P0Evidence

  /** The command-line options; None when one is not given. */
  datatype Arguments = Arguments(repository: Option<string>, commit: Option<string>, tree: Option<string>)

  /** The variables GITHUB_REPOSITORY and SOURCE_SHA. */
  datatype Environment = Environment(repository: Option<string>, commit: Option<string>)

  /** What git answers about the checkout; None where the command fails. */
  datatype Checkout = Checkout(commit: Option<string>, tree: Option<string>, status: Option<string>)

  /** An option that counts as given: the empty text does not. */
  predicate Given(option: Option<string>) {
    option.Some? && option.value != ""
  }

  /** The source bound to the checkout, or None when a check or a command fails. */
  function ResolveSource(args: Arguments, env: Environment, checkout: Checkout): Option<Source> {
    var repository :=
      if Given(args.repository) then args.repository.value
      else if Given(env.repository) then env.repository.value else "unknown";
    if checkout.commit.None? || checkout.tree.None? then None
    else
      var commit := if Given(args.commit) then args.commit.value
                    else if env.commit.Some? then env.commit.value else checkout.commit.value;
      var tree := if args.tree.Some? then args.tree.value else checkout.tree.value;
      if && Str(repository) == REPOSITORY && Sha40(Str(commit)) && Sha40(Str(tree))
         && commit == checkout.commit.value && tree == checkout.tree.value && checkout.status == Some("")
      then Some(Source(Str(repository), Str(commit), Str(tree), Bool(true)))
      else None
  }

  const ZEROS := "0000000000000000000000000000000000000000"

  /** The record made up from the options when the source cannot be resolved. */
  function FallbackSource(args: Arguments, env: Environment): Source {
    Source(
      Str(if Given(args.repository) then args.repository.value
          else if env.repository.Some? then env.repository.value else "unknown"),
      Str(if Given(args.commit) then args.commit.value else ZEROS),
      Str(if Given(args.tree) then args.tree.value else ZEROS),
      Bool(false))
  }

  /** The source record of a failed run. */
  function FailureSource(args: Arguments, env: Environment, checkout: Checkout): Source {
    var resolved := ResolveSource(args, env, checkout);
    if resolved.Some? then resolved.value else FallbackSource(args, env)
  }

  /** The repository is named by the option or else by the environment, and an option that gives a
      commit or a tree gives forty hexadecimal digits. */
  predicate WellNamed(args: Arguments, env: Environment) {
    && (if Given(args.repository) then Str(args.repository.value) == REPOSITORY
        else env.repository.Some? && Str(env.repository.value) == REPOSITORY)
    && (Given(args.commit) ==> Sha40(Str(args.commit.value)))
    && (Given(args.tree) ==> Sha40(Str(args.tree.value)))
  }

  lemma RepositoryIs()
    ensures |REPOSITORY.s| == 31
  {
  }

  /** What resolves is bound to the checkout and clean, and was well named. */
  lemma ResolvedIsBound(args: Arguments, env: Environment, checkout: Checkout)
    requires ResolveSource(args, env, checkout).Some?
    ensures var s := ResolveSource(args, env, checkout).value;
            && SourceBound(s) && s.cleanTree == Bool(true) && WellNamed(args, env)
            && checkout.commit.Some? && s.commit == Str(checkout.commit.value)
            && checkout.tree.Some? && s.tree == Str(checkout.tree.value)
  {
    RepositoryIs();
    assert |"unknown"| == 7;
  }

  lemma FallbackBound(args: Arguments, env: Environment)
    ensures SourceBound(FallbackSource(args, env)) <==> WellNamed(args, env)
  {
    RepositoryIs();
    assert |"unknown"| == 7;
    assert Sha40(Str(ZEROS));
  }

  /** The source record of a failed run is well-formed exactly when the run was well named, whatever
      the state of the checkout. */
  lemma FailureSourceBound(args: Arguments, env: Environment, checkout: Checkout)
    ensures SourceBound(FailureSource(args, env, checkout)) <==> WellNamed(args, env)
  {
    if ResolveSource(args, env, checkout).Some? {
      ResolvedIsBound(args, env, checkout);
    } else {
      FallbackBound(args, env);
    }
  }

  /** Options that are given are what the record says, whichever way it is made. */
  lemma GivenSource(args: Arguments, env: Environment, checkout: Checkout)
    ensures var source := FailureSource(args, env, checkout);
            && source.Source?
            && (Given(args.repository) ==> source.repository == Str(args.repository.value))
            && (Given(args.commit) ==> source.commit == Str(args.commit.value))
            && (Given(args.tree) ==> source.tree == Str(args.tree.value))
  {
  }

  /** What a well-named record says: an option where it is given, else what git says where the source
      resolves, else zeros. */
  lemma FailureSourceIs(args: Arguments, env: Environment, checkout: Checkout)
    requires WellNamed(args, env)
    ensures var source := FailureSource(args, env, checkout);
            var resolved := ResolveSource(args, env, checkout).Some?;
            && source.Source? && source.repository == REPOSITORY && source.cleanTree == Bool(resolved)
            && (resolved ==> checkout.commit.Some? && checkout.tree.Some?)
            && source.commit == Str(if Given(args.commit) then args.commit.value
                                    else if resolved then checkout.commit.value else ZEROS)
            && source.tree == Str(if Given(args.tree) then args.tree.value
                                  else if resolved then checkout.tree.value else ZEROS)
  {
    RepositoryIs();
    GivenSource(args, env, checkout);
    if ResolveSource(args, env, checkout).Some? {
      ResolvedIsBound(args, env, checkout);
    } else {
      FallbackBound(args, env);
    }
  }

  lemma ZeroSource(env: Environment)
    ensures var source := FailureSource(Arguments(Some(REPOSITORY.s), None, None), env, Checkout(None, None, None));
            source.Source? && source.commit == Str(ZEROS) && SourceBound(source)
  {
    RepositoryIs();
    FailureSourceBound(Arguments(Some(REPOSITORY.s), None, None), env, Checkout(None, None, None));
  }

  lemma UnknownSource(checkout: Checkout)
    ensures var source := FailureSource(Arguments(None, None, None), Environment(None, None), checkout);
            source.Source? && source.repository == Str("unknown") && !SourceBound(source)
  {
    RepositoryIs();
    assert |"unknown"| == 7;
  }
}
