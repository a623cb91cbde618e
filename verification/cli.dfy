/** `parseArguments` of the command-line encoder: options are `-name`
    followed by a value, at most one positional argument is allowed, `-i`
    and `-o` are mandatory, `-q` goes through `std::stoi` and `-f` names a
    subsampling format. */
module Cli {
  import opened Wrappers

  datatype Arguments = Arguments(inputFileName: string, outputFileName: string, quality: int, format: string)

  /** What the argument loop has gathered: the positional name and the
      option map. */
  datatype Collected = Collected(input: string, options: map<string, string>)

  const NoneCollected := Collected("", map[])

  const Formats: set<string> := {"444", "420", "422"}

  const UsageMessage: string :=
    "Input file name not specified. Usage example: ./jpeg_encoder -i xx.png -o xxx.jpg -q 50 -f 420, "
    + "where -q is the quality range [1,100], -f is the yuvformat [444, 420, 4422]"

  /** `arg.substr(0, 1) == "-"`: the argument starts with a dash. */
  predicate IsOption(arg: string)
  {
    |arg| >= 1 && arg[0] == '-'
  }

  /** The loop of `parseArguments` from index `i` on. */
  function Collect(argv: seq<string>, i: nat, acc: Collected): (r: Result<Collected>)
    decreases |argv| - i
  {
    if i >= |argv| then Success(acc)
    else
      var arg := argv[i];
      if IsOption(arg) then
        var name := arg[1..];
        if i + 1 >= |argv| then Failure("Option " + name + " requires a value.")
        else Collect(argv, i + 2, acc.(options := acc.options[name := argv[i + 1]]))
      else if acc.input != "" then Failure("Multiple input file names specified.")
      else Collect(argv, i + 1, acc.(input := arg))
  }

  /** `parseArguments(argc, argv)`, with `std::stoi` as `stoi`: `None`
      where it would throw. */
  function ParseArguments(argv: seq<string>, stoi: string -> Option<int>): (r: Result<Arguments>)
    ensures r.Success? ==> r.value.inputFileName != "" && r.value.format in Formats
  {
    match Collect(argv, 1, NoneCollected)
    case Failure(e) => Failure(e)
    case Success(c) => Validate(c.options, stoi)
  }

  /** The checks after the loop, in their order. The positional name is
      never used: `-i` is mandatory and replaces it. */
  function Validate(options: map<string, string>, stoi: string -> Option<int>): (r: Result<Arguments>)
    ensures r.Success? ==> r.value.inputFileName != "" && r.value.format in Formats
  {
    if "i" !in options then Failure(UsageMessage)
    else if "o" !in options then Failure("Output file name not specified.")
    else
      var quality := if "q" in options then stoi(options["q"]) else Some(50);
      if quality.None? then Failure("Invalid value for quality.")
      else if "f" in options && options["f"] !in Formats then Failure("Invalid value for format.")
      else if options["i"] == "" then Failure("Input file name not specified.")
      else Success(Arguments(options["i"], options["o"], quality.value,
                             if "f" in options then options["f"] else "444"))
  }

  // ---------------------------------------------------------------------
  // The command line as a list of items
  // ---------------------------------------------------------------------

  /** One element of a command line: an option with its value, or a
      positional argument. */
  datatype Item = Opt(name: string, value: string) | Positional(arg: string)

  function RenderItem(it: Item): (tokens: seq<string>)
  {
    match it
    case Opt(name, value) => ["-" + name, value]
    case Positional(arg) => [arg]
  }

  function Render(items: seq<Item>): (argv: seq<string>)
  {
    if |items| == 0 then [] else RenderItem(items[0]) + Render(items[1..])
  }

  /** A positional argument cannot start with a dash, or it would be read
      as an option. */
  predicate Plain(items: seq<Item>)
  {
    forall k | 0 <= k < |items| :: items[k].Positional? ==> !IsOption(items[k].arg)
  }

  /** The items read in order: an option overwrites any earlier value of
      the same name; a positional argument is refused once a non-empty one
      has been seen. */
  function Fold(items: seq<Item>, acc: Collected): (r: Result<Collected>)
  {
    if |items| == 0 then Success(acc)
    else
      match items[0]
      case Opt(name, value) => Fold(items[1..], acc.(options := acc.options[name := value]))
      case Positional(arg) =>
        if acc.input != "" then Failure("Multiple input file names specified.")
        else Fold(items[1..], acc.(input := arg))
  }

  /** The loop reads a rendered command line item by item. */
  lemma {:induction false} CollectRender(pre: seq<string>, items: seq<Item>, acc: Collected)
    requires Plain(items)
    ensures Collect(pre + Render(items), |pre|, acc) == Fold(items, acc)
    decreases |items|
  {
    if |items| > 0 {
      var it, rest := items[0], items[1..];
      var argv := pre + Render(items);
      var pre' := pre + RenderItem(it);
      assert argv == pre' + Render(rest);
      assert Plain(rest) by {
        forall k | 0 <= k < |rest| && rest[k].Positional? ensures !IsOption(rest[k].arg) {
          assert rest[k] == items[k + 1];
        }
      }
      match it
      case Opt(name, value) =>
        assert argv[|pre|] == "-" + name && argv[|pre| + 1] == value;
        assert ("-" + name)[1..] == name;
        CollectRender(pre', rest, acc.(options := acc.options[name := value]));
      case Positional(arg) =>
        assert argv[|pre|] == arg;
        assert !IsOption(items[0].arg);
        if acc.input == "" {
          CollectRender(pre', rest, acc.(input := arg));
        }
    }
  }

  /** The option map of a command line: the last value of each name. */
  function OptionsOf(items: seq<Item>): (options: map<string, string>)
  {
    if |items| == 0 then map[]
    else
      var m := OptionsOf(items[..|items| - 1]);
      match items[|items| - 1]
      case Opt(name, value) => m[name := value]
      case Positional(_) => m
  }

  function CountPositional(items: seq<Item>): (count: nat)
  {
    if |items| == 0 then 0 else (if items[0].Positional? then 1 else 0) + CountPositional(items[1..])
  }

  /** With at most one positional argument, the loop succeeds with the
      option map that keeps the last value of every name. */
  lemma {:induction false} FoldOptions(items: seq<Item>, acc: Collected)
    requires CountPositional(items) <= 1
    requires acc.input == ""
    ensures Fold(items, acc).Success?
    ensures Fold(items, acc).value.options == acc.options + OptionsOf(items)
    decreases |items|
  {
    if |items| > 0 {
      var rest := items[1..];
      var next := match items[0]
        case Opt(name, value) => acc.(options := acc.options[name := value])
        case Positional(arg) => acc.(input := arg);
      if items[0].Positional? {
        assert CountPositional(rest) == 0;
        FoldNoPositional(rest, next);
      } else {
        FoldOptions(rest, next);
      }
      OptionsOfCons(items);
    }
  }

  lemma {:induction false} FoldNoPositional(items: seq<Item>, acc: Collected)
    requires CountPositional(items) == 0
    ensures Fold(items, acc).Success?
    ensures Fold(items, acc).value.options == acc.options + OptionsOf(items)
    decreases |items|
  {
    if |items| > 0 {
      var name, value := items[0].name, items[0].value;
      FoldNoPositional(items[1..], acc.(options := acc.options[name := value]));
      OptionsOfCons(items);
    }
  }

  /** Reading the first item and then the rest gives the same map. */
  lemma {:induction false} OptionsOfCons(items: seq<Item>)
    requires |items| > 0
    ensures OptionsOf(items) == (if items[0].Opt? then map[items[0].name := items[0].value] else map[]) + OptionsOf(items[1..])
    decreases |items|
  {
    if |items| > 1 {
      var init := items[..|items| - 1];
      OptionsOfCons(init);
      assert init[0] == items[0];
      assert init[1..] == items[1..][..|items[1..]| - 1];
    } else {
      assert items[..0] == [];
      assert items[1..] == [];
    }
  }

  /** A later value of an option replaces an earlier one. */
  lemma LastWins(items: seq<Item>, name: string, value: string)
    ensures OptionsOf(items + [Opt(name, value)])[name] == value
  {
    assert (items + [Opt(name, value)])[..|items|] == items;
  }

  /** On a command line of options and at most one positional argument,
      `parseArguments` succeeds exactly when `-i` and `-o` are there, `-i`
      is non-empty, `-q` (if any) converts and `-f` (if any) is a known
      format; the result takes the last value of each option and the
      defaults quality 50 and format 444. No range check is made on the
      quality. */
  lemma ParseItems(program: string, items: seq<Item>, stoi: string -> Option<int>)
    requires Plain(items) && CountPositional(items) <= 1
    ensures var o := OptionsOf(items);
            var r := ParseArguments([program] + Render(items), stoi);
            && (r.Success? <==> ("i" in o && "o" in o && o["i"] != ""
                                 && ("q" in o ==> stoi(o["q"]).Some?)
                                 && ("f" in o ==> o["f"] in Formats)))
            && (r.Success? ==> r.value == Arguments(o["i"], o["o"],
                                                    if "q" in o then stoi(o["q"]).value else 50,
                                                    if "f" in o then o["f"] else "444"))
  {
    CollectRender([program], items, NoneCollected);
    FoldOptions(items, NoneCollected);
    assert map[] + OptionsOf(items) == OptionsOf(items);
  }

  /** An option as the last argument has no value, and the loop throws. */
  lemma MissingValue(program: string, items: seq<Item>, name: string, stoi: string -> Option<int>)
    requires Plain(items) && CountPositional(items) <= 1
    ensures ParseArguments([program] + Render(items) + ["-" + name], stoi)
            == Failure("Option " + name + " requires a value.")
  {
    var argv := [program] + Render(items) + ["-" + name];
    CollectTail([program], items, ["-" + name], NoneCollected);
    FoldOptions(items, NoneCollected);
    var acc := Fold(items, NoneCollected).value;
    assert ("-" + name)[1..] == name;
    assert Collect(argv, |argv| - 1, acc) == Failure("Option " + name + " requires a value.");
  }

  /** What the loop does over rendered items followed by more arguments. */
  lemma {:induction false} CollectTail(pre: seq<string>, items: seq<Item>, post: seq<string>, acc: Collected)
    requires Plain(items)
    ensures Fold(items, acc).Success? ==>
              Collect(pre + Render(items) + post, |pre|, acc)
              == Collect(pre + Render(items) + post, |pre| + |Render(items)|, Fold(items, acc).value)
    decreases |items|
  {
    if |items| > 0 {
      var it, rest := items[0], items[1..];
      var pre' := pre + RenderItem(it);
      var argv := pre + Render(items) + post;
      assert argv == pre' + Render(rest) + post;
      assert Plain(rest) by {
        forall k | 0 <= k < |rest| && rest[k].Positional? ensures !IsOption(rest[k].arg) {
          assert rest[k] == items[k + 1];
        }
      }
      match it
      case Opt(name, value) =>
        assert argv[|pre|] == "-" + name && argv[|pre| + 1] == value;
        assert ("-" + name)[1..] == name;
        CollectTail(pre', rest, post, acc.(options := acc.options[name := value]));
      case Positional(arg) =>
        assert argv[|pre|] == arg;
        assert !IsOption(items[0].arg);
        if acc.input == "" {
          CollectTail(pre', rest, post, acc.(input := arg));
        }
    }
  }

  /** A second non-empty positional argument is refused. */
  lemma TwoPositionals(program: string, first: string, second: string, stoi: string -> Option<int>)
    requires first != "" && !IsOption(first) && !IsOption(second)
    ensures ParseArguments([program, first, second], stoi) == Failure("Multiple input file names specified.")
  {
    var argv := [program, first, second];
    assert Collect(argv, 1, NoneCollected) == Collect(argv, 2, NoneCollected.(input := first));
  }
}
