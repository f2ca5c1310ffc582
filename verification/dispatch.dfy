/** The choice `main` makes from the parsed command line: usage, one of the
    four codec listings, the accelerator listing, a transcode, or nothing. */
module Dispatch {
  import opened Results

  /** The options `createCommandLineOptions` declares. */
  datatype Opt =
    | Help | Input | Output
    | SwDecoders | SwEncoders | HwDecoders | HwEncoders | HwAccels
    | Decoder | Encoder | HwAccel

  /** The options declared with an argument. */
  predicate TakesArgument(o: Opt) {
    o.Input? || o.Output? || o.Decoder? || o.Encoder? || o.HwAccel?
  }

  /** A successfully parsed command line: the options present and the
      argument given to each present option that takes one. */
  datatype CommandLine = CommandLine(present: set<Opt>, values: map<Opt, string>)

  /** What a successful parse guarantees: a present option that takes an
      argument has one, and only present options have arguments. */
  predicate WellFormed(cl: CommandLine) {
    && (forall o :: o in cl.present && TakesArgument(o) ==> o in cl.values)
    && (forall o :: o in cl.values ==> o in cl.present && TakesArgument(o))
  }

  /** `CommandLine.getOptionValue`: the argument, or `None` for `null`,
      which is what an absent option, or one declared without an argument,
      gives. */
  function OptionValue(cl: CommandLine, o: Opt): (v: Option<string>)
    requires WellFormed(cl)
    ensures v.Some? <==> o in cl.present && TakesArgument(o)
    ensures v.Some? ==> v.value == cl.values[o]
  {
    if o in cl.values then Some(cl.values[o]) else None
  }

  /** The seven actions. */
  datatype Action =
    | ShowHelp
    | ListCodecs(encoders: bool, hardware: bool)
    | ListHwAccelerators
    | Transcode(inputPath: string, outputPath: Option<string>, hwAccel: Option<string>,
                decoder: Option<string>, encoder: Option<string>)

  /** Usage is printed: the parse failed, no option is present, or `-help` is. */
  predicate ShowsHelp(parsed: Option<CommandLine>) {
    parsed.None? || parsed.value.present == {} || Help in parsed.value.present
  }

  /** The options that select an action, highest priority first. */
  const Priority: seq<Opt> := [SwDecoders, SwEncoders, HwDecoders, HwEncoders, HwAccels, Input]

  /** `Priority[k]` is the first option of the priority order present. */
  predicate FirstPresentAt(present: set<Opt>, k: nat) {
    k < |Priority| && Priority[k] in present && forall j :: 0 <= j < k ==> Priority[j] !in present
  }

  /** The action each selecting option stands for. */
  function ActionFor(o: Opt, cl: CommandLine): Action
    requires WellFormed(cl) && o in Priority
    requires o.Input? ==> Input in cl.present
  {
    match o
    case SwDecoders => ListCodecs(false, false)
    case SwEncoders => ListCodecs(true, false)
    case HwDecoders => ListCodecs(false, true)
    case HwEncoders => ListCodecs(true, true)
    case HwAccels => ListHwAccelerators
    case Input =>
      Transcode(cl.values[Input], OptionValue(cl, Output), OptionValue(cl, HwAccel),
                OptionValue(cl, Decoder), OptionValue(cl, Encoder))
  }

  /** `main`: the if/else chain over the parsed command line; `None` when no
      branch is taken (for example, only `-output` is given). */
  function Dispatch(parsed: Option<CommandLine>): (action: Option<Action>)
    requires parsed.Some? ==> WellFormed(parsed.value)
    ensures action == Some(ShowHelp) <==> ShowsHelp(parsed)
    ensures !ShowsHelp(parsed) ==> (action.None? <==> forall o :: o in Priority ==> o !in parsed.value.present)
    ensures !ShowsHelp(parsed) && action.Some? ==>
              exists k: nat :: FirstPresentAt(parsed.value.present, k) && action.value == ActionFor(Priority[k], parsed.value)
  {
    if parsed.None? || parsed.value.present == {} || Help in parsed.value.present then
      Some(ShowHelp)
    else
      var cl := parsed.value;
      if SwDecoders in cl.present then
        assert FirstPresentAt(cl.present, 0);
        Some(ListCodecs(false, false))
      else if SwEncoders in cl.present then
        assert FirstPresentAt(cl.present, 1);
        Some(ListCodecs(true, false))
      else if HwDecoders in cl.present then
        assert FirstPresentAt(cl.present, 2);
        Some(ListCodecs(false, true))
      else if HwEncoders in cl.present then
        assert FirstPresentAt(cl.present, 3);
        Some(ListCodecs(true, true))
      else if HwAccels in cl.present then
        assert FirstPresentAt(cl.present, 4);
        Some(ListHwAccelerators)
      else if Input in cl.present then
        assert FirstPresentAt(cl.present, 5);
        Some(Transcode(cl.values[Input], OptionValue(cl, Output), OptionValue(cl, HwAccel),
                       OptionValue(cl, Decoder), OptionValue(cl, Encoder)))
      else
        None
  }

  /** Adding options of lower priority than the selecting one, or options
      that select nothing, does not change a listing: it ignores every such
      option and its argument. A transcode has no such option to spare:
      `-input` ranks last, and every option that selects nothing and may
      accompany it (`-output`, `-hwaccel`, `-decoder`, `-encoder`) passes
      its argument on. So for a transcode the arguments must stay the same,
      which leaves the command line as it was. */
  lemma LowerPriorityIgnored(cl: CommandLine, cl': CommandLine, k: nat)
    requires WellFormed(cl) && WellFormed(cl') && !ShowsHelp(Some(cl))
    requires FirstPresentAt(cl.present, k)
    requires cl.present <= cl'.present
    requires k < 5 || cl'.values == cl.values
    requires Help !in cl'.present
    requires forall j :: 0 <= j < k ==> Priority[j] !in cl'.present
    ensures Dispatch(Some(cl')) == Dispatch(Some(cl))
  {
    assert FirstPresentAt(cl'.present, k);
  }
}
