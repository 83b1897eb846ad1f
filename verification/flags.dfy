/** The command-line flag list of the build scripts (`FlagManager`). */
module Flags {
  import opened Wrappers
  import opened Strings
  import opened Json

  /** The `npm_config_argv` environment variable: unset or empty, text
      that `JSON.parse` rejects, or the parsed value. */
  datatype NpmArgv = Unset | Malformed | Parsed(value: Json)

  /** `arg.substr(0, 2) === '--'`. */
  predicate IsFlag(arg: string) {
    |arg| >= 2 && arg[..2] == "--"
  }

  /** The argv entries that are flags, in argv order. */
  function FlagArgs(argv: seq<string>): (r: seq<string>)
    ensures |r| <= |argv|
    ensures forall i :: 0 <= i < |r| ==> IsFlag(r[i]) && r[i] in argv
    ensures forall a :: a in argv && IsFlag(a) ==> a in r
  {
    if argv == [] then []
    else
      var prev := FlagArgs(argv[..|argv| - 1]);
      var a := argv[|argv| - 1];
      assert forall x :: x in argv <==> x in argv[..|argv| - 1] || x == a;
      if IsFlag(a) then prev + [a] else prev
  }

  /** `add(flag)`: a non-empty flag that is not yet listed goes at the end;
      anything else leaves the list as it is. */
  function Add(flags: seq<string>, flag: string): (r: seq<string>)
    ensures flag != "" && flag !in flags ==> r == flags + [flag]
    ensures flag == "" || flag in flags ==> r == flags
    ensures flag != "" ==> flag in r
  {
    if flag != "" && flag !in flags then flags + [flag] else flags
  }

  /** Filtering distributes over concatenation: the flags of `a + b` are
      the flags of `a` followed by those of `b`, so order and repeats are
      kept. */
  lemma {:induction false} FlagArgsAppend(a: seq<string>, b: seq<string>)
    ensures FlagArgs(a + b) == FlagArgs(a) + FlagArgs(b)
    decreases |b|
  {
    if b == [] {
      assert a + b == a;
    } else {
      var init := b[..|b| - 1];
      FlagArgsAppend(a, init);
      assert (a + b)[..|a + b| - 1] == a + init;
      assert (a + b)[|a + b| - 1] == b[|b| - 1];
    }
  }

  /** A single entry is kept exactly when it is a flag. */
  lemma FlagArgsOne(arg: string)
    ensures FlagArgs([arg]) == if IsFlag(arg) then [arg] else []
  {
    assert [arg][..0] == [];
  }

  /** Each option added in turn, in the order given. */
  function AddAll(flags: seq<string>, options: seq<string>): (r: seq<string>)
    ensures |flags| <= |r| <= |flags| + |options|
    ensures r[..|flags|] == flags
  {
    if options == [] then flags
    else
      var prev := AddAll(flags, options[..|options| - 1]);
      var r := Add(prev, options[|options| - 1]);
      assert r[..|prev|] == prev;
      r
  }

  /** Adding the options of `a + b` is adding those of `a`, then those of `b`. */
  lemma {:induction false} AddAllAppend(flags: seq<string>, a: seq<string>, b: seq<string>)
    ensures AddAll(flags, a + b) == AddAll(AddAll(flags, a), b)
    decreases |b|
  {
    if b == [] {
      assert a + b == a;
    } else {
      var init := b[..|b| - 1];
      AddAllAppend(flags, a, init);
      assert (a + b)[..|a + b| - 1] == a + init;
      assert (a + b)[|a + b| - 1] == b[|b| - 1];
    }
  }

  /** `add` never introduces a duplicate, and adding twice is adding once. */
  lemma AddLaws(flags: seq<string>, flag: string)
    ensures Distinct(flags) ==> Distinct(Add(flags, flag))
    ensures Add(Add(flags, flag), flag) == Add(flags, flag)
  {
  }

  /** The constructor: the flags of argv, then each option added in turn.
      Reading `.original` of a parsed null, or a malformed variable, throws;
      the handler leaves the list empty. A parsed variable otherwise
      contributes nothing, as the result of `concat` is dropped. */
  method Construct(argv: seq<string>, env: NpmArgv, options: seq<string>) returns (flags: seq<string>)
    ensures env.Malformed? || env == Parsed(JNull) ==> flags == []
    ensures !(env.Malformed? || env == Parsed(JNull)) ==> flags == AddAll(FlagArgs(argv), options)
    ensures !(env.Malformed? || env == Parsed(JNull)) ==>
      && |flags| >= |FlagArgs(argv)|
      && flags[..|FlagArgs(argv)|] == FlagArgs(argv)
      && (forall o :: o in options && o != "" ==> o in flags)
      && (forall i :: |FlagArgs(argv)| <= i < |flags| ==> flags[i] in options && flags[i] != "" && flags[i] !in flags[..i])
  {
    if env.Malformed? || env == Parsed(JNull) {
      return [];
    }
    var base := FlagArgs(argv);
    flags := base;
    var k := 0;
    while k < |options|
      invariant 0 <= k <= |options|
      invariant |flags| >= |base| && flags[..|base|] == base
      invariant forall o :: o in options[..k] && o != "" ==> o in flags
      invariant forall i :: |base| <= i < |flags| ==> flags[i] in options && flags[i] != "" && flags[i] !in flags[..i]
      invariant flags == AddAll(base, options[..k])
    {
      var prev := flags;
      flags := Add(flags, options[k]);
      if flags != prev {
        assert flags[..|prev|] == prev;
        assert flags[..|base|] == prev[..|base|];
      }
      assert forall o :: o in options[..k + 1] ==> o in options[..k] || o == options[k];
      assert options[..k + 1][..k] == options[..k];
      k := k + 1;
    }
    assert options[..k] == options;
  }
}
