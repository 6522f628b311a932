/** Positional arguments (`positional_args`): the arguments passed after the
    environment's command line, as used by the `{posargs}` substitution. */
module Posargs {
  import opened Text

  /** An argument that starts with `-` is a flag. */
  predicate IsFlag(a: string) {
    StartsWith(a, "-")
  }

  /** The longest prefix of `args` in which no argument is a flag: it stops
      exactly at the first flag, or runs to the end. */
  function FlagFree(args: seq<string>): (r: seq<string>)
    ensures |r| <= |args| && r == args[..|r|]
    ensures forall i :: 0 <= i < |r| ==> !IsFlag(r[i])
    ensures |r| < |args| ==> IsFlag(args[|r|])
  {
    if args == [] || IsFlag(args[0]) then []
    else [args[0]] + FlagFree(args[1..])
  }

  /** `list(positional_args(arguments))`: everything after a leading `--`,
      otherwise the arguments up to the first flag. */
  function PositionalArgs(args: seq<string>): seq<string> {
    if |args| > 0 && args[0] == "--" then args[1..] else FlagFree(args)
  }

  /** `FlagFree` is the only prefix that is free of flags and ends at a flag
      or at the end of the arguments. */
  lemma FlagFreeUnique(args: seq<string>, n: nat)
    requires n <= |args|
    requires forall i :: 0 <= i < n ==> !IsFlag(args[i])
    requires n == |args| || IsFlag(args[n])
    ensures FlagFree(args) == args[..n]
  {
  }

  /** The result is the whole input after a leading `--`, and otherwise a
      prefix of the input that contains no flag and is followed by a flag
      or by nothing. */
  lemma PositionalArgsShape(args: seq<string>)
    ensures var r := PositionalArgs(args);
      if |args| > 0 && args[0] == "--" then r == args[1..]
      else
        && r == args[..|r|]
        && (forall i :: 0 <= i < |r| ==> !IsFlag(r[i]))
        && (|r| == |args| || IsFlag(args[|r|]))
  {
  }

  /** Without flags and without a leading `--`, every argument is positional. */
  lemma NoFlags(args: seq<string>)
    requires forall i :: 0 <= i < |args| ==> !IsFlag(args[i])
    ensures PositionalArgs(args) == args
  {
    FlagFreeUnique(args, |args|);
    if |args| > 0 {
      assert !IsFlag(args[0]);
      assert args[0] != "--" by {
        if args[0] == "--" {
          assert StartsWith(args[0], "-");
        }
      }
    }
  }

  /** `positional_args` as the generator runs it: after `--` every remaining
      argument is yielded; otherwise arguments are yielded until the first
      flag breaks the loop. */
  method CollectPositional(args: seq<string>) returns (r: seq<string>)
    ensures r == PositionalArgs(args)
  {
    r := [];
    if |args| > 0 && args[0] == "--" {
      var i := 1;
      while i < |args|
        invariant 1 <= i <= |args|
        invariant r == args[1..i]
      {
        r := r + [args[i]];
        i := i + 1;
      }
    } else {
      var i := 0;
      while i < |args|
        invariant 0 <= i <= |args|
        invariant r == args[..i]
        invariant forall j :: 0 <= j < i ==> !IsFlag(args[j])
      {
        if IsFlag(args[i]) {
          break;
        }
        r := r + [args[i]];
        i := i + 1;
      }
      FlagFreeUnique(args, i);
    }
  }

  /** The two documented calls, as the code answers them: the flag after
      `--` is kept with its dashes. */
  lemma PositionalArgsSamples()
    ensures PositionalArgs(["arg1", "arg2", "--kwarg"]) == ["arg1", "arg2"]
    ensures PositionalArgs(["--", "arg1", "--kwarg"]) == ["arg1", "--kwarg"]
  {
    var args := ["arg1", "arg2", "--kwarg"];
    assert args[0][0] == 'a' && args[1][0] == 'a' && args[2][0] == '-';
    assert !IsFlag(args[0]) && !IsFlag(args[1]) && IsFlag(args[2]);
    assert args[0] != "--";
    FlagFreeUnique(args, 2);
  }
}
