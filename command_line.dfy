/**
 * The command-line check that runs before anything is loaded: exactly four
 * flag/value pairs, each flag one of `--hotels`, `--bookings`, `--checkin`,
 * `--checkout` and none repeated, both files present, both dates readable, and the
 * check-in day before the check-out day. Whether a file exists and whether a date
 * string parses are parameters.
 */
module CommandLine {
  import opened Wrappers

  /** Why the arguments were refused; each is a usage message and exit status 1. */
  datatype ArgError =
    | WrongArgumentCount
    | OptionTooShort(arg: string)     // `substring(2)` throws on an argument shorter than two characters
    | RepeatedOption(arg: string)
    | NotAnOption(arg: string)        // does not start with "--"
    | UnknownOption(arg: string)
    | MissingFile(option: string)
    | BadDate(option: string)
    | CheckoutNotAfterCheckin

  /** The accepted options, keyed by their name without the leading "--". */
  type Config = map<string, string>

  const FileOptions: set<string> := {"--hotels", "--bookings"}
  const DateOptions: set<string> := {"--checkin", "--checkout"}
  const Options: set<string> := FileOptions + DateOptions
  const OptionNames: set<string> := {"hotels", "bookings", "checkin", "checkout"}

  /** The flag of pair `k`. */
  function FlagAt(args: seq<string>, k: nat): string
    requires 2 * k < |args|
  {
    args[2 * k]
  }

  /** The value of pair `k`. */
  function ValueAt(args: seq<string>, k: nat): string
    requires 2 * k + 1 < |args|
  {
    args[2 * k + 1]
  }

  /** The key an option is stored under: the option without its first two characters. */
  function OptionName(option: string): string
    requires |option| >= 2
  {
    option[2..]
  }

  predicate DateBefore(a: Option<int>, b: Option<int>)
  {
    a.Some? && b.Some? && a.value < b.value
  }

  /** Pair `k` names a known option, and its file exists or its date parses. */
  ghost predicate PairAccepted(args: seq<string>, k: nat, fileExists: string -> bool, parseDate: string -> Option<int>)
    requires 2 * k + 1 < |args|
  {
    && FlagAt(args, k) in Options
    && (FlagAt(args, k) in FileOptions ==> fileExists(ValueAt(args, k)))
    && (FlagAt(args, k) in DateOptions ==> parseDate(ValueAt(args, k)).Some?)
  }

  /** The first `n` pairs are each accepted and no flag among them is repeated. */
  ghost predicate PairsAccepted(args: seq<string>, n: nat, fileExists: string -> bool, parseDate: string -> Option<int>)
    requires 2 * n <= |args|
  {
    && (forall k: nat :: k < n ==> PairAccepted(args, k, fileExists, parseDate))
    && (forall k: nat, l: nat :: k < l < n ==> FlagAt(args, k) != FlagAt(args, l))
  }

  /** The check-in date is before the check-out date. */
  ghost predicate StayOrdered(args: seq<string>, parseDate: string -> Option<int>)
    requires |args| == 8
  {
    forall k: nat, l: nat :: k < 4 && l < 4 && FlagAt(args, k) == "--checkin" && FlagAt(args, l) == "--checkout"
      ==> DateBefore(parseDate(ValueAt(args, k)), parseDate(ValueAt(args, l)))
  }

  /** What the argument check accepts, stated pair by pair. */
  ghost predicate ValidArgs(args: seq<string>, fileExists: string -> bool, parseDate: string -> Option<int>)
  {
    |args| == 8 && PairsAccepted(args, 4, fileExists, parseDate) && StayOrdered(args, parseDate)
  }

  /** Every option starts with "--" and is stored under its own name. */
  lemma OptionNamesOfOptions()
    ensures OptionName("--hotels") == "hotels" && OptionName("--bookings") == "bookings"
    ensures OptionName("--checkin") == "checkin" && OptionName("--checkout") == "checkout"
    ensures "--hotels"[..2] == "--" && "--bookings"[..2] == "--"
    ensures "--checkin"[..2] == "--" && "--checkout"[..2] == "--"
  {
    assert OptionName("--hotels") == "hotels";
    assert OptionName("--bookings") == "bookings";
    assert OptionName("--checkin") == "checkin";
    assert OptionName("--checkout") == "checkout";
    assert "--hotels"[..2] == "--" && "--bookings"[..2] == "--";
    assert "--checkin"[..2] == "--" && "--checkout"[..2] == "--";
  }

  /** Four distinct options among the four known ones: every known option is given, by one of the pairs. */
  lemma EveryOptionGiven(args: seq<string>) returns (h: nat, b: nat, ci: nat, co: nat)
    requires |args| == 8
    requires forall k: nat :: k < 4 ==> FlagAt(args, k) in Options
    requires forall k: nat, l: nat :: k < l < 4 ==> FlagAt(args, k) != FlagAt(args, l)
    ensures h < 4 && b < 4 && ci < 4 && co < 4
    ensures FlagAt(args, h) == "--hotels" && FlagAt(args, b) == "--bookings"
    ensures FlagAt(args, ci) == "--checkin" && FlagAt(args, co) == "--checkout"
  {
    var f0, f1, f2, f3 := FlagAt(args, 0), FlagAt(args, 1), FlagAt(args, 2), FlagAt(args, 3);
    assert f0 in Options && f1 in Options && f2 in Options && f3 in Options;
    assert f0 != f1 && f0 != f2 && f0 != f3 && f1 != f2 && f1 != f3 && f2 != f3;
    assert {f0, f1, f2, f3} == Options;
    h :| h < 4 && FlagAt(args, h) == "--hotels";
    b :| b < 4 && FlagAt(args, b) == "--bookings";
    ci :| ci < 4 && FlagAt(args, ci) == "--checkin";
    co :| co < 4 && FlagAt(args, co) == "--checkout";
  }

  /** The names stored for the first `n` pairs. */
  function StoredNames(args: seq<string>, n: nat): set<string>
    requires 2 * n <= |args|
    requires forall k: nat :: k < n ==> |FlagAt(args, k)| >= 2
  {
    if n == 0 then {} else StoredNames(args, n - 1) + {OptionName(FlagAt(args, n - 1))}
  }

  /** A stored name was stored for one of the first `n` pairs. */
  lemma {:induction false} StoredNameFrom(args: seq<string>, n: nat, name: string) returns (k: nat)
    requires 2 * n <= |args|
    requires forall k: nat :: k < n ==> |FlagAt(args, k)| >= 2
    requires name in StoredNames(args, n)
    ensures k < n && name == OptionName(FlagAt(args, k))
  {
    if name == OptionName(FlagAt(args, n - 1)) {
      k := n - 1;
    } else {
      k := StoredNameFrom(args, n - 1, name);
    }
  }

  /** `config` holds, under its name, the value of each of the first `n` pairs, and nothing else. */
  ghost predicate Stores(config: Config, args: seq<string>, n: nat)
    requires 2 * n <= |args|
  {
    && (forall k: nat :: k < n ==>
          |FlagAt(args, k)| >= 2 && OptionName(FlagAt(args, k)) in config && config[OptionName(FlagAt(args, k))] == ValueAt(args, k))
    && config.Keys == StoredNames(args, n)
  }

  /** Every option is at least two characters long and starts with "--". */
  lemma OptionsStartWithDashes(arg: string)
    ensures arg in Options ==> |arg| >= 2 && arg[..2] == "--"
  {
    OptionNamesOfOptions();
  }

  /** Accepting one more pair, and storing its value under its name, keeps both invariants. */
  lemma AcceptNext(args: seq<string>, n: nat, config: Config, fileExists: string -> bool, parseDate: string -> Option<int>)
    requires 2 * n + 1 < |args|
    requires PairsAccepted(args, n, fileExists, parseDate) && Stores(config, args, n)
    requires PairAccepted(args, n, fileExists, parseDate) && |FlagAt(args, n)| >= 2
    requires OptionName(FlagAt(args, n)) !in config
    ensures PairsAccepted(args, n + 1, fileExists, parseDate)
    ensures Stores(config[OptionName(FlagAt(args, n)) := ValueAt(args, n)], args, n + 1)
  {
    forall k: nat, l: nat | k < l < n + 1 ensures FlagAt(args, k) != FlagAt(args, l) {
      if l == n {
        assert OptionName(FlagAt(args, k)) in config;
      }
    }
  }

  /** A pair that is not accepted makes the arguments invalid. */
  lemma InvalidPair(args: seq<string>, k: nat, fileExists: string -> bool, parseDate: string -> Option<int>)
    requires |args| == 8 && k < 4
    requires !PairAccepted(args, k, fileExists, parseDate)
    ensures !ValidArgs(args, fileExists, parseDate)
  {
  }

  /** A flag whose name was already stored for an earlier accepted pair makes the arguments invalid. */
  lemma RepeatedPair(args: seq<string>, k: nat, j: nat, fileExists: string -> bool, parseDate: string -> Option<int>)
    requires |args| == 8 && k < j < 4
    requires FlagAt(args, k) in Options && |FlagAt(args, j)| >= 2
    requires OptionName(FlagAt(args, j)) == OptionName(FlagAt(args, k))
    ensures !ValidArgs(args, fileExists, parseDate)
  {
    OptionNamesOfOptions();
    if PairAccepted(args, j, fileExists, parseDate) {
      assert FlagAt(args, j) == FlagAt(args, k);
    }
  }

  /** Four accepted pairs: every option is stored, under its own name, with its value. */
  lemma AcceptedPairs(args: seq<string>, config: Config, fileExists: string -> bool, parseDate: string -> Option<int>)
    requires |args| == 8
    requires PairsAccepted(args, 4, fileExists, parseDate) && Stores(config, args, 4)
    ensures config.Keys == OptionNames
    ensures fileExists(config["hotels"]) && fileExists(config["bookings"])
    ensures parseDate(config["checkin"]).Some? && parseDate(config["checkout"]).Some?
    ensures ValidArgs(args, fileExists, parseDate) <==> DateBefore(parseDate(config["checkin"]), parseDate(config["checkout"]))
  {
    OptionNamesOfOptions();
    forall k: nat | k < 4 ensures FlagAt(args, k) in Options {
      assert PairAccepted(args, k, fileExists, parseDate);
    }
    var h, b, ci, co := EveryOptionGiven(args);
    assert PairAccepted(args, h, fileExists, parseDate) && PairAccepted(args, b, fileExists, parseDate);
    assert PairAccepted(args, ci, fileExists, parseDate) && PairAccepted(args, co, fileExists, parseDate);
    assert config["hotels"] == ValueAt(args, h);
    assert config["bookings"] == ValueAt(args, b);
    assert config["checkin"] == ValueAt(args, ci);
    assert config["checkout"] == ValueAt(args, co);
    forall name | name in config ensures name in OptionNames {
      var k := StoredNameFrom(args, 4, name);
      assert PairAccepted(args, k, fileExists, parseDate);
    }
    if DateBefore(parseDate(config["checkin"]), parseDate(config["checkout"])) {
      forall k: nat, l: nat | k < 4 && l < 4 && FlagAt(args, k) == "--checkin" && FlagAt(args, l) == "--checkout"
        ensures DateBefore(parseDate(ValueAt(args, k)), parseDate(ValueAt(args, l)))
      {
        assert k == ci && l == co;
      }
    }
  }

  /**
   * `parseArgs`: the argument list is accepted exactly when it is valid; the options
   * are then all present, keyed by name with the value that followed each flag; both
   * files exist and the stay is not empty. The first offending pair decides the error.
   */
  method ParseArgs(args: seq<string>, fileExists: string -> bool, parseDate: string -> Option<int>)
    returns (r: Result<Config, ArgError>)
    ensures |args| != 8 ==> r == Failure(WrongArgumentCount)
    ensures r.Success? <==> ValidArgs(args, fileExists, parseDate)
    ensures r.Success? ==> r.value.Keys == OptionNames
    ensures r.Success? ==> forall k: nat :: k < 4 ==>
      |FlagAt(args, k)| >= 2 && OptionName(FlagAt(args, k)) in r.value && r.value[OptionName(FlagAt(args, k))] == ValueAt(args, k)
    ensures r.Success? ==>
      && fileExists(r.value["hotels"]) && fileExists(r.value["bookings"])
      && DateBefore(parseDate(r.value["checkin"]), parseDate(r.value["checkout"]))
  {
    if |args| != 8 {
      return Failure(WrongArgumentCount);
    }
    var config: Config := map[];
    var i := 0;
    ghost var n: nat := 0;
    while i < |args|
      invariant i == 2 * n && n <= 4
      invariant PairsAccepted(args, n, fileExists, parseDate)
      invariant Stores(config, args, n)
    {
      var arg := args[i];
      assert arg == FlagAt(args, n) && args[i + 1] == ValueAt(args, n);
      OptionsStartWithDashes(arg);
      if |arg| < 2 {
        InvalidPair(args, n, fileExists, parseDate);
        return Failure(OptionTooShort(arg));
      }
      if arg[2..] in config {
        var k := StoredNameFrom(args, n, arg[2..]);
        assert PairAccepted(args, k, fileExists, parseDate);
        RepeatedPair(args, k, n, fileExists, parseDate);
        return Failure(RepeatedOption(arg));
      }
      if arg[..2] != "--" {
        InvalidPair(args, n, fileExists, parseDate);
        return Failure(NotAnOption(arg));
      }
      if arg == "--hotels" || arg == "--bookings" {
        if !fileExists(args[i + 1]) {
          InvalidPair(args, n, fileExists, parseDate);
          return Failure(MissingFile(arg));
        }
      } else if arg == "--checkin" || arg == "--checkout" {
        if parseDate(args[i + 1]).None? {
          InvalidPair(args, n, fileExists, parseDate);
          return Failure(BadDate(arg));
        }
      } else {
        InvalidPair(args, n, fileExists, parseDate);
        return Failure(UnknownOption(arg));
      }
      AcceptNext(args, n, config, fileExists, parseDate);
      config := config[arg[2..] := args[i + 1]];
      i, n := i + 2, n + 1;
    }
    AcceptedPairs(args, config, fileExists, parseDate);
    var checkin := parseDate(config["checkin"]);
    var checkout := parseDate(config["checkout"]);
    if checkin.value >= checkout.value {
      return Failure(CheckoutNotAfterCheckin);
    }
    return Success(config);
  }
}
