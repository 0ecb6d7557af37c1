/**
 * The chat client's command line: `-l <listen port>` and `-p <server port>`
 * are required, `-s <server host>` is optional (default "localhost"); each
 * flag takes the next argument as its value, flags may come in any order,
 * and a repeated flag keeps its last value. Every error ends in printUsage.
 */
module ChatClient {
  import opened Wrappers
  import opened JavaInt
  import opened Protocol

  const DefaultHost: string := "localhost"

  /** The initial value of both port fields, read at the end as "not given". */
  const Unset: int := -1

  datatype Config = Config(listenPort: int, serverPort: int, serverHost: string)

  predicate StartsWithDash(s: string) {
    |s| > 0 && s[0] == '-'
  }

  predicate IsFlag(token: string) {
    token == "-l" || token == "-p" || token == "-s"
  }

  /** Whether `value` is accepted right after `flag`. */
  predicate AcceptsValue(flag: string, value: string) {
    if flag == "-l" || flag == "-p" then ParseInt(value).Some?
    else flag == "-s" && !StartsWithDash(value)
  }

  /** The arguments are a run of flag/value pairs, each flag known and each value accepted. */
  predicate WellFormed(args: seq<string>)
    decreases |args|
  {
    |args| == 0
    || (|args| >= 2 && WellFormed(args[..|args| - 2]) && AcceptsValue(args[|args| - 2], args[|args| - 1]))
  }

  /** The value of the last pair whose flag is `flag`, if there is one. */
  function LastValue(args: seq<string>, flag: string): Option<string>
    decreases |args|
  {
    if |args| < 2 then None
    else if args[|args| - 2] == flag then Some(args[|args| - 1])
    else LastValue(args[..|args| - 2], flag)
  }

  function PortOf(args: seq<string>, flag: string): int {
    match LastValue(args, flag)
    case Some(value) => ParseInt(value).GetOr(Unset)
    case None => Unset
  }

  function HostOf(args: seq<string>): string {
    LastValue(args, "-s").GetOr(DefaultHost)
  }

  /** The configuration the arguments describe, or a usage error. */
  function Parse(args: seq<string>): Result<Config, UsageError> {
    if !WellFormed(args) then Failure(Usage)
    else
      var config := Config(PortOf(args, "-l"), PortOf(args, "-p"), HostOf(args));
      if config.listenPort == Unset || config.serverPort == Unset then Failure(Usage)
      else Success(config)
  }

  lemma {:induction false} WellFormedEven(args: seq<string>)
    requires WellFormed(args)
    ensures |args| % 2 == 0
    decreases |args|
  {
    if |args| > 0 {
      WellFormedEven(args[..|args| - 2]);
    }
  }

  /** In well-formed arguments every even position holds a flag followed by a value it accepts. */
  lemma {:induction false} PairAt(args: seq<string>, i: nat)
    requires WellFormed(args) && i % 2 == 0 && i < |args|
    ensures i + 1 < |args| && AcceptsValue(args[i], args[i + 1])
    decreases |args|
  {
    WellFormedEven(args);
    var init := args[..|args| - 2];
    if i < |args| - 2 {
      PairAt(init, i);
      assert init[i] == args[i] && init[i + 1] == args[i + 1];
    }
  }

  /**
   * Any bad pair is a usage failure: an unknown token where a flag belongs, a
   * flag with no value after it, a port that parseInt rejects, or a host that
   * starts with '-'.
   */
  lemma BadPairFails(args: seq<string>, i: nat)
    requires i % 2 == 0 && i < |args|
    requires !(i + 1 < |args| && AcceptsValue(args[i], args[i + 1]))
    ensures Parse(args) == Failure(Usage)
  {
    if WellFormed(args) {
      PairAt(args, i);
    }
  }

  lemma {:induction false} WellFormedAppend(a: seq<string>, b: seq<string>)
    requires |a| % 2 == 0 && |b| % 2 == 0
    ensures WellFormed(a + b) <==> WellFormed(a) && WellFormed(b)
    decreases |b|
  {
    if b == [] {
      assert a + b == a;
    } else {
      var init := b[..|b| - 2];
      assert (a + b)[..|a + b| - 2] == a + init;
      WellFormedAppend(a, init);
    }
  }

  /** The last pair for a flag lies in the later part when the later part has one. */
  lemma {:induction false} LastValueAppend(a: seq<string>, b: seq<string>, flag: string)
    requires |b| % 2 == 0
    ensures LastValue(a + b, flag) == if LastValue(b, flag).Some? then LastValue(b, flag) else LastValue(a, flag)
    decreases |b|
  {
    if b == [] {
      assert a + b == a;
    } else {
      var init := b[..|b| - 2];
      assert (a + b)[..|a + b| - 2] == a + init;
      LastValueAppend(a, init, flag);
    }
  }

  /** An odd number of arguments always leaves a flag without its value. */
  lemma {:induction false} OddLengthFails(args: seq<string>)
    requires |args| % 2 == 1
    ensures Parse(args) == Failure(Usage)
  {
    if WellFormed(args) {
      WellFormedEven(args);
    }
  }

  /** Arguments that agree on being well formed and on every flag's last value parse alike. */
  lemma {:induction false} ParseAgrees(x: seq<string>, y: seq<string>)
    requires WellFormed(x) == WellFormed(y)
    requires LastValue(x, "-l") == LastValue(y, "-l") && LastValue(x, "-p") == LastValue(y, "-p")
    requires LastValue(x, "-s") == LastValue(y, "-s")
    ensures Parse(x) == Parse(y)
  {
  }

  /** Swapping two adjacent pairs keeps the arguments well formed, and no more. */
  lemma {:induction false} SwapPairsWellFormed(pre: seq<string>, f: string, v: string, g: string, w: string, post: seq<string>)
    requires |pre| % 2 == 0 && |post| % 2 == 0
    ensures WellFormed(pre + [f, v, g, w] + post) <==> WellFormed(pre + [g, w, f, v] + post)
  {
    WellFormedAppend(pre + [f, v, g, w], post);
    WellFormedAppend(pre + [g, w, f, v], post);
    WellFormedAppend(pre, [f, v, g, w]);
    WellFormedAppend(pre, [g, w, f, v]);
    assert [f, v, g, w][..2] == [f, v] && [g, w, f, v][..2] == [g, w];
    assert [f, v][..0] == [] && [g, w][..0] == [];
    assert WellFormed([f, v, g, w]) == WellFormed([g, w, f, v]);
  }

  /** Two adjacent options with different flags can be given in either order. */
  lemma {:induction false} OptionsCommute(pre: seq<string>, f: string, v: string, g: string, w: string, post: seq<string>)
    requires f != g && |pre| % 2 == 0
    ensures Parse(pre + [f, v, g, w] + post) == Parse(pre + [g, w, f, v] + post)
  {
    var x, y := pre + [f, v, g, w] + post, pre + [g, w, f, v] + post;
    if |post| % 2 == 1 {
      OddLengthFails(x);
      OddLengthFails(y);
    } else {
      SwapPairsWellFormed(pre, f, v, g, w, post);
      forall h | h in {"-l", "-p", "-s"}
        ensures LastValue(x, h) == LastValue(y, h)
      {
        LastValueAppend(pre + [f, v, g, w], post, h);
        LastValueAppend(pre + [g, w, f, v], post, h);
        LastValueAppend(pre, [f, v, g, w], h);
        LastValueAppend(pre, [g, w, f, v], h);
      }
      ParseAgrees(x, y);
    }
  }

  lemma {:induction false} FlagInTail(mid: seq<string>, f: string, v: string, post: seq<string>)
    requires |mid| % 2 == 0 && |post| % 2 == 0
    ensures LastValue(mid + [f, v] + post, f).Some?
  {
    var pair := [f, v];
    assert LastValue(pair, f) == Some(v);
    LastValueAppend(pair, post, f);
    assert LastValue(pair + post, f).Some?;
    LastValueAppend(mid, pair + post, f);
    assert mid + pair + post == mid + (pair + post);
  }

  /** Dropping an overridden pair changes no flag's last value. */
  lemma {:induction false} OverriddenPairInvisible(pre: seq<string>, f: string, v1: string, tail: seq<string>, h: string)
    requires |tail| % 2 == 0 && LastValue(tail, f).Some?
    ensures LastValue(pre + [f, v1] + tail, h) == LastValue(pre + tail, h)
  {
    LastValueAppend(pre + [f, v1], tail, h);
    LastValueAppend(pre, tail, h);
    if h != f {
      assert LastValue([f, v1], h) == None by {
        assert [f, v1][..0] == [];
      }
      LastValueAppend(pre, [f, v1], h);
    }
  }

  /** Dropping one accepted pair from between whole pairs keeps the arguments well formed, and no more. */
  lemma {:induction false} DropPairWellFormed(pre: seq<string>, f: string, v1: string, tail: seq<string>)
    requires |pre| % 2 == 0 && |tail| % 2 == 0 && AcceptsValue(f, v1)
    ensures WellFormed(pre + [f, v1] + tail) <==> WellFormed(pre + tail)
  {
    assert WellFormed([f, v1]) by {
      assert [f, v1][..0] == [];
    }
    WellFormedAppend(pre + [f, v1], tail);
    WellFormedAppend(pre, [f, v1]);
    WellFormedAppend(pre, tail);
  }

  /** A flag given twice keeps its last value: the earlier pair can be dropped without effect. */
  lemma {:induction false} RepeatedFlagLastWins(pre: seq<string>, f: string, v1: string, mid: seq<string>, v2: string, post: seq<string>)
    requires |pre| % 2 == 0 && |mid| % 2 == 0 && AcceptsValue(f, v1)
    ensures Parse(pre + [f, v1] + mid + [f, v2] + post) == Parse(pre + mid + [f, v2] + post)
  {
    var tail := mid + [f, v2] + post;
    var x, y := pre + [f, v1] + tail, pre + tail;
    assert x == pre + [f, v1] + mid + [f, v2] + post && y == pre + mid + [f, v2] + post;
    if |post| % 2 == 1 {
      OddLengthFails(x);
      OddLengthFails(y);
    } else {
      DropPairWellFormed(pre, f, v1, tail);
      FlagInTail(mid, f, v2, post);
      OverriddenPairInvisible(pre, f, v1, tail, "-l");
      OverriddenPairInvisible(pre, f, v1, tail, "-p");
      OverriddenPairInvisible(pre, f, v1, tail, "-s");
      ParseAgrees(x, y);
    }
  }

  /**
   * `parseArguments`: walk the arguments with index `i`, which each flag
   * advances past its value, assigning the three settings; then require both
   * ports. Every failure is printUsage.
   */
  method ParseArguments(args: seq<string>) returns (r: Result<Config, UsageError>)
    ensures r == Parse(args)
    ensures r.Success? ==> r.value.listenPort != Unset && r.value.serverPort != Unset
    ensures r.Success? && LastValue(args, "-s").None? ==> r.value.serverHost == DefaultHost
  {
    var listenPort, serverPort, serverHost := Unset, Unset, DefaultHost;
    var i := 0;
    while i < |args|
      invariant 0 <= i <= |args| && i % 2 == 0
      invariant WellFormed(args[..i])
      invariant listenPort == PortOf(args[..i], "-l")
      invariant serverPort == PortOf(args[..i], "-p")
      invariant serverHost == HostOf(args[..i])
    {
      var start := i;
      var flag := args[i];
      if !IsFlag(flag) {
        // default: printUsage
        BadPairFails(args, start);
        return Failure(Usage);
      }
      i := i + 1;
      if i == |args| {
        // args[++i] is out of bounds: IndexOutOfBoundsException, printUsage
        BadPairFails(args, start);
        return Failure(Usage);
      }
      var value := args[i];
      if flag == "-s" {
        if StartsWithDash(value) {
          BadPairFails(args, start);
          return Failure(Usage);
        }
        serverHost := value;
      } else {
        var port := ParseInt(value);
        if port.None? {
          // NumberFormatException: printUsage
          BadPairFails(args, start);
          return Failure(Usage);
        }
        if flag == "-l" {
          listenPort := port.value;
        } else {
          serverPort := port.value;
        }
      }
      i := i + 1;
      assert args[..i][..start] == args[..start];
      assert args[..i][start] == flag && args[..i][start + 1] == value;
    }
    assert args[..i] == args;
    if listenPort == Unset || serverPort == Unset {
      return Failure(Usage);
    }
    r := Success(Config(listenPort, serverPort, serverHost));
  }
}
