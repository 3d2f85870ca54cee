/** `parseArgs` (args_parser.cpp:17-66): a left-to-right scan of the command-line arguments against
    a table of options, then default filling. Printing the help text and exiting become the
    result `Help`; each thrown `invalid_argument` becomes a `Failed` result. */
module ArgsParser {
  import opened Results

  datatype OptionType = Bool | Enum | Number | Str

  /** An `Option`; its description is only printed, so it is omitted. */
  datatype OptionSpec = OptionSpec(kind: OptionType, required: bool, enumValues: seq<string>, defaultValue: string)

  /** The option table in the iteration order of its `std::map`. */
  type Options = seq<(string, OptionSpec)>

  datatype ArgError =
    | UnknownOption(arg: string)
    | MissingValue(key: string)
    | InvalidValue(key: string)
    | InvalidNumber(key: string)
    | MissingRequired(key: string)

  datatype Parse = Parsed(values: map<string, string>) | Help | Failed(error: ArgError)

  /** A `std::map` holds each key once. */
  predicate DistinctKeys(opts: Options) {
    forall i, j :: 0 <= i < j < |opts| ==> opts[i].0 != opts[j].0
  }

  function Keys(opts: Options): set<string> {
    set i | 0 <= i < |opts| :: opts[i].0
  }

  function Find(opts: Options, key: string): (r: Option<OptionSpec>)
    ensures r.None? <==> key !in Keys(opts)
    ensures r.Some? ==> exists i :: 0 <= i < |opts| && opts[i] == (key, r.value)
  {
    if |opts| == 0 then None
    else if opts[0].0 == key then Some(opts[0].1)
    else
      var r := Find(opts[1..], key);
      assert Keys(opts) == {opts[0].0} + Keys(opts[1..]) by {
        forall k | k in Keys(opts) ensures k in {opts[0].0} + Keys(opts[1..]) {
          var i :| 0 <= i < |opts| && opts[i].0 == k;
          if i > 0 { assert opts[1..][i - 1] == opts[i]; }
        }
      }
      assert r.Some? ==> exists i :: 0 <= i < |opts| && opts[i] == (key, r.value) by {
        if r.Some? {
          var i :| 0 <= i < |opts[1..]| && opts[1..][i] == (key, r.value);
          assert opts[i + 1] == (key, r.value);
        }
      }
      r
  }

  /** A value the option accepts: one of the listed values of an enum, a number for a number
      option (`isNumber` stands for `istringstream >> long double` succeeding), anything else
      otherwise. */
  predicate Accepts(spec: OptionSpec, value: string, isNumber: string -> bool) {
    match spec.kind
    case Enum => value in spec.enumValues
    case Number => isNumber(value)
    case _ => true
  }

  predicate IsHelp(arg: string) {
    arg == "-h" || arg == "-help"
  }

  /** The scan of args_parser.cpp:19-55 from the argument after the program name; `acc` is what
      earlier arguments have set. */
  function Scan(args: seq<string>, opts: Options, isNumber: string -> bool, acc: map<string, string>): Parse
    decreases |args|
  {
    if |args| == 0 then Parsed(acc)
    else
      var arg := args[0];
      if IsHelp(arg) then Help
      else if |arg| == 0 || arg[0] != '-' then Failed(UnknownOption(arg))
      else
        match Find(opts, arg)
        case None => Failed(UnknownOption(arg))
        case Some(spec) =>
          if spec.kind == Bool then
            Scan(args[1..], opts, isNumber, acc[arg := "true"])
          else if |args| < 2 then Failed(MissingValue(arg))
          else
            var value := args[1];
            if spec.kind == Enum && value !in spec.enumValues then Failed(InvalidValue(arg))
            else if spec.kind == Number && !isNumber(value) then Failed(InvalidNumber(arg))
            else Scan(args[2..], opts, isNumber, acc[arg := value])
  }

  /** The scan only sets known options; it never reports a missing required option; a missing
      value is reported for a valued option in the last position; an unknown option is one of
      the arguments, and either not in the table or not starting with '-'. */
  lemma {:induction false} ScanOutcome(args: seq<string>, opts: Options, isNumber: string -> bool, acc: map<string, string>)
    ensures var r := Scan(args, opts, isNumber, acc);
      (r.Parsed? ==> acc.Keys <= r.values.Keys <= acc.Keys + Keys(opts)) &&
      (r.Failed? ==> !r.error.MissingRequired?) &&
      (r.Failed? && r.error.MissingValue? ==>
        |args| > 0 && args[|args| - 1] == r.error.key && Find(opts, r.error.key).Some? && Find(opts, r.error.key).value.kind != Bool) &&
      (r.Failed? && r.error.UnknownOption? ==>
        r.error.arg in args && (r.error.arg !in Keys(opts) || |r.error.arg| == 0 || r.error.arg[0] != '-'))
    decreases |args|, 1
  {
    if |args| > 0 {
      var arg := args[0];
      if !IsHelp(arg) && |arg| > 0 && arg[0] == '-' && Find(opts, arg).Some? {
        var spec := Find(opts, arg).value;
        if spec.kind == Bool {
          ScanTailOutcome(args, 1, opts, isNumber, acc[arg := "true"]);
        } else if |args| >= 2 {
          ScanTailOutcome(args, 2, opts, isNumber, acc[arg := args[1]]);
        }
      }
    }
  }

  /** `ScanOutcome` for the scan of a suffix, stated about the whole argument list. */
  lemma {:induction false} ScanTailOutcome(args: seq<string>, n: nat, opts: Options, isNumber: string -> bool, acc: map<string, string>)
    requires 0 < n <= |args|
    ensures var r := Scan(args[n..], opts, isNumber, acc);
      (r.Parsed? ==> acc.Keys <= r.values.Keys <= acc.Keys + Keys(opts)) &&
      (r.Failed? ==> !r.error.MissingRequired?) &&
      (r.Failed? && r.error.MissingValue? ==>
        args[|args| - 1] == r.error.key && Find(opts, r.error.key).Some? && Find(opts, r.error.key).value.kind != Bool) &&
      (r.Failed? && r.error.UnknownOption? ==>
        r.error.arg in args && (r.error.arg !in Keys(opts) || |r.error.arg| == 0 || r.error.arg[0] != '-'))
    decreases |args|, 0
  {
    var r := Scan(args[n..], opts, isNumber, acc);
    ScanOutcome(args[n..], opts, isNumber, acc);
    if r.Failed? && r.error.MissingValue? {
      assert args[n..][|args[n..]| - 1] == args[|args| - 1];
    }
    if r.Failed? && r.error.UnknownOption? {
      var i :| 0 <= i < |args[n..]| && args[n..][i] == r.error.arg;
      assert args[n + i] == r.error.arg;
    }
  }

  /** The default filling of args_parser.cpp:56-64, from option `i` on in table order: an option
      nothing set takes its default, unless it is required. */
  function Fill(opts: Options, i: nat, acc: map<string, string>): (r: Parse)
    requires i <= |opts| && DistinctKeys(opts)
    ensures r.Parsed? || r.Failed?
    ensures r.Parsed? ==>
      r.values.Keys == acc.Keys + Keys(opts[i..]) &&
      (forall k :: k in acc ==> r.values[k] == acc[k]) &&
      forall j :: i <= j < |opts| && opts[j].0 !in acc ==> !opts[j].1.required && r.values[opts[j].0] == opts[j].1.defaultValue
    ensures r.Failed? ==>
      exists j :: i <= j < |opts| && r.error == MissingRequired(opts[j].0) && opts[j].0 !in acc && opts[j].1.required &&
        forall q :: i <= q < j ==> opts[q].0 in acc || !opts[q].1.required
    decreases |opts| - i
  {
    if i == |opts| then Parsed(acc)
    else
      var key := opts[i].0;
      var spec := opts[i].1;
      KeysFrom(opts, i);
      if key in acc then Fill(opts, i + 1, acc)
      else if spec.required then Failed(MissingRequired(key))
      else Fill(opts, i + 1, acc[key := spec.defaultValue])
  }

  lemma KeysFrom(opts: Options, i: nat)
    requires i < |opts|
    ensures Keys(opts[i..]) == {opts[i].0} + Keys(opts[i + 1..])
  {
    forall k | k in Keys(opts[i..]) ensures k in {opts[i].0} + Keys(opts[i + 1..]) {
      var j :| 0 <= j < |opts[i..]| && opts[i..][j].0 == k;
      if j > 0 { assert opts[i + 1..][j - 1] == opts[i..][j]; }
    }
    forall k | k in Keys(opts[i + 1..]) ensures k in Keys(opts[i..]) {
      var j :| 0 <= j < |opts[i + 1..]| && opts[i + 1..][j].0 == k;
      assert opts[i..][j + 1] == opts[i + 1..][j];
    }
  }

  /** `parseArgs`: scan, then fill defaults. */
  function ParseArgs(args: seq<string>, opts: Options, isNumber: string -> bool): (r: Parse)
    requires DistinctKeys(opts)
    ensures r.Parsed? ==> r.values.Keys == Keys(opts)
    ensures r.Parsed? ==> forall j :: 0 <= j < |opts| && opts[j].1.required ==> opts[j].0 in r.values
  {
    match Scan(args, opts, isNumber, map[])
    case Parsed(m) =>
      ScanOutcome(args, opts, isNumber, map[]);
      assert opts[0..] == opts;
      Fill(opts, 0, m)
    case other => other
  }

  /** The arguments that set each `(key, value)` in turn: the key alone for a flag, the key and
      its value otherwise. */
  function Render(settings: seq<(string, string)>, opts: Options): seq<string> {
    if |settings| == 0 then []
    else
      var key := settings[0].0;
      (if Find(opts, key).Some? && Find(opts, key).value.kind == Bool then [key] else [key, settings[0].1]) +
      Render(settings[1..], opts)
  }

  /** A setting the scan accepts: a known option other than the help flags, a flag set to
      "true", or a value the option accepts. */
  predicate Renderable(setting: (string, string), opts: Options, isNumber: string -> bool) {
    var (key, value) := setting;
    !IsHelp(key) && |key| > 0 && key[0] == '-' &&
    match Find(opts, key)
    case None => false
    case Some(spec) => (spec.kind == Bool ==> value == "true") && Accepts(spec, value, isNumber)
  }

  /** The map after assigning each setting in order, later ones overwriting earlier ones. */
  function Assign(acc: map<string, string>, settings: seq<(string, string)>): map<string, string>
    decreases |settings|
  {
    if |settings| == 0 then acc else Assign(acc[settings[0].0 := settings[0].1], settings[1..])
  }

  /** Scanning the rendering of acceptable settings assigns them in order. */
  lemma {:induction false} ScanRender(settings: seq<(string, string)>, opts: Options, isNumber: string -> bool, acc: map<string, string>)
    requires forall j :: 0 <= j < |settings| ==> Renderable(settings[j], opts, isNumber)
    ensures Scan(Render(settings, opts), opts, isNumber, acc) == Parsed(Assign(acc, settings))
    decreases |settings|
  {
    if |settings| > 0 {
      var (key, value) := settings[0];
      assert Renderable(settings[0], opts, isNumber);
      var args := Render(settings, opts);
      var rest := Render(settings[1..], opts);
      var n := if Find(opts, key).value.kind == Bool then 1 else 2;
      assert args[n..] == rest;
      ScanRender(settings[1..], opts, isNumber, acc[key := value]);
    }
  }

  /** The last assignment to a key wins. */
  lemma {:induction false} AssignLast(acc: map<string, string>, settings: seq<(string, string)>, setting: (string, string))
    ensures Assign(acc, settings + [setting]) == Assign(acc, settings)[setting.0 := setting.1]
    decreases |settings|
  {
    if |settings| == 0 {
      assert settings + [setting] == [setting];
    } else {
      assert (settings + [setting])[1..] == settings[1..] + [setting];
      AssignLast(acc[settings[0].0 := settings[0].1], settings[1..], setting);
    }
  }

  /** A successful scan of a prefix hands its map to the scan of what follows. */
  lemma {:induction false} ScanAppend(p: seq<string>, q: seq<string>, opts: Options, isNumber: string -> bool, acc: map<string, string>)
    requires Scan(p, opts, isNumber, acc).Parsed?
    ensures Scan(p + q, opts, isNumber, acc) == Scan(q, opts, isNumber, Scan(p, opts, isNumber, acc).values)
    decreases |p|
  {
    if |p| == 0 {
      assert p + q == q;
    } else {
      var arg := p[0];
      var spec := Find(opts, arg).value;
      var n := if spec.kind == Bool then 1 else 2;
      var acc' := if spec.kind == Bool then acc[arg := "true"] else acc[arg := p[1]];
      assert (p + q)[0] == arg;
      assert (p + q)[n..] == p[n..] + q;
      if spec.kind != Bool {
        assert (p + q)[1] == p[1];
      }
      ScanAppend(p[n..], q, opts, isNumber, acc');
    }
  }

  /** A help flag reached after a well-formed prefix prints the help text and exits. */
  lemma HelpAfterValid(p: seq<string>, flag: string, q: seq<string>, opts: Options, isNumber: string -> bool)
    requires DistinctKeys(opts) && Scan(p, opts, isNumber, map[]).Parsed? && IsHelp(flag)
    ensures ParseArgs(p + [flag] + q, opts, isNumber) == Help
  {
    assert p + [flag] + q == p + ([flag] + q);
    ScanAppend(p, [flag] + q, opts, isNumber, map[]);
  }

  /** An argument after a well-formed prefix that is not a key of the table, or that is empty or
      does not start with '-' even though the table has it as a key, is rejected. */
  lemma UnknownAfterValid(p: seq<string>, arg: string, q: seq<string>, opts: Options, isNumber: string -> bool)
    requires DistinctKeys(opts) && Scan(p, opts, isNumber, map[]).Parsed?
    requires !IsHelp(arg) && (arg !in Keys(opts) || |arg| == 0 || arg[0] != '-')
    ensures ParseArgs(p + [arg] + q, opts, isNumber) == Failed(UnknownOption(arg))
  {
    assert p + [arg] + q == p + ([arg] + q);
    ScanAppend(p, [arg] + q, opts, isNumber, map[]);
  }

  /** A valued option in the last position has no value. */
  lemma MissingValueAtEnd(p: seq<string>, key: string, opts: Options, isNumber: string -> bool)
    requires DistinctKeys(opts) && Scan(p, opts, isNumber, map[]).Parsed?
    requires !IsHelp(key) && |key| > 0 && key[0] == '-' && Find(opts, key).Some? && Find(opts, key).value.kind != Bool
    ensures ParseArgs(p + [key], opts, isNumber) == Failed(MissingValue(key))
  {
    ScanAppend(p, [key], opts, isNumber, map[]);
  }

  /** A value an option does not accept is rejected, whatever follows. */
  lemma RejectedValue(p: seq<string>, key: string, value: string, q: seq<string>, opts: Options, isNumber: string -> bool)
    requires DistinctKeys(opts) && Scan(p, opts, isNumber, map[]).Parsed?
    requires !IsHelp(key) && |key| > 0 && key[0] == '-' && Find(opts, key).Some?
    requires !Accepts(Find(opts, key).value, value, isNumber)
    ensures ParseArgs(p + [key, value] + q, opts, isNumber) ==
      Failed(if Find(opts, key).value.kind == Enum then InvalidValue(key) else InvalidNumber(key))
  {
    var rest := [key, value] + q;
    assert p + [key, value] + q == p + rest;
    ScanAppend(p, rest, opts, isNumber, map[]);
    assert rest[0] == key && rest[1] == value && |rest| >= 2;
    var spec := Find(opts, key).value;
    assert spec.kind == Enum || spec.kind == Number;
    assert Scan(rest, opts, isNumber, Scan(p, opts, isNumber, map[]).values) ==
      Failed(if spec.kind == Enum then InvalidValue(key) else InvalidNumber(key));
  }

  /** The arguments rendering acceptable settings parse to those settings, later ones winning,
      with the defaults of the options they leave unset. */
  lemma ParseRender(settings: seq<(string, string)>, opts: Options, isNumber: string -> bool)
    requires DistinctKeys(opts)
    requires forall j :: 0 <= j < |settings| ==> Renderable(settings[j], opts, isNumber)
    ensures ParseArgs(Render(settings, opts), opts, isNumber) == Fill(opts, 0, Assign(map[], settings))
  {
    ScanRender(settings, opts, isNumber, map[]);
  }
}
