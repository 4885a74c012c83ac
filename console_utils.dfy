/** `ConsoleUtils`: the command listing built from method descriptors, its
    usage fragments, and the answer rule of the interactive question prompt.
    Assembly scanning is replaced by an explicit sequence of type
    descriptors; console output, colour and cursor movement are left out. */
module ConsoleUtils {
  import opened Wrappers
  import opened Text
  import opened CommandBase
  import opened CommandInfo

  // ---------------------------------------------------------------------
  // Usage fragments

  /** `<name:TypeName>` for one parameter. */
  function ParamFragment(p: Param): string {
    "<" + p.name + ":" + TypeName(p.typ) + ">"
  }

  function ParamFragments(ps: seq<Param>): seq<string> {
    seq(|ps|, i requires 0 <= i < |ps| => ParamFragment(ps[i]))
  }

  /** The usage fragment: the parameters' fragments joined by single spaces.
      It is empty exactly when there are no parameters, and otherwise opens
      with the first parameter's fragment. */
  function UsageFragment(ps: seq<Param>): (u: string)
    ensures u == "" <==> |ps| == 0
    ensures |ps| >= 1 ==> ParamFragment(ps[0]) <= u
  {
    Join(ParamFragments(ps), ' ')
  }

  /** Parameter and type names hold no space, as C# identifiers do not. */
  predicate SpaceFree(ps: seq<Param>) {
    forall i :: 0 <= i < |ps| ==> ' ' !in ps[i].name && ' ' !in TypeName(ps[i].typ)
  }

  /** A method without parameters has an empty usage fragment. */
  lemma NoParametersNoUsage()
    ensures UsageFragment([]) == ""
  {
  }

  /** The usage fragment of a non-empty parameter list splits on spaces into
      one `<name:TypeName>` token per parameter, in declaration order. */
  lemma UsageFragmentTokens(ps: seq<Param>)
    requires |ps| >= 1
    requires SpaceFree(ps)
    ensures |Split(UsageFragment(ps), ' ')| == |ps|
    ensures forall i :: 0 <= i < |ps| ==>
      Split(UsageFragment(ps), ' ')[i] == "<" + ps[i].name + ":" + TypeName(ps[i].typ) + ">"
  {
    var fs := ParamFragments(ps);
    forall i | 0 <= i < |fs| ensures ' ' !in fs[i] {
      var f, n, tn := fs[i], ps[i].name, TypeName(ps[i].typ);
      assert f == "<" + n + ":" + tn + ">";
      forall k | 0 <= k < |f| ensures f[k] != ' ' {
        if 1 <= k <= |n| {
          assert f[k] == n[k - 1];
        } else if |n| + 2 <= k < |f| - 1 {
          assert f[k] == tn[k - |n| - 2];
        }
      }
    }
    SplitJoin(fs, ' ');
  }

  // ---------------------------------------------------------------------
  // The command listing (`GetAllCommands`)

  datatype CommandAttribute = CommandAttribute(name: string, description: string, ignoreExtraArgs: bool)

  /** A public instance method: its `ConsoleCommand`, `Alias` and `Example`
      attributes (each possibly absent) and its parameters. The example is
      the already space-joined text of the `Example` attribute. */
  datatype MethodDescriptor = MethodDescriptor(
    command: Option<CommandAttribute>,
    aliases: Option<seq<string>>,
    example: Option<string>,
    params: seq<Param>)

  /** A type: whether `IConsoleCommand` is assignable from it, whether it is
      an interface or abstract, and its public instance methods. */
  datatype TypeDescriptor = TypeDescriptor(
    implementsCommand: bool,
    isInterface: bool,
    isAbstract: bool,
    methods: seq<MethodDescriptor>)

  predicate IsCommandType(t: TypeDescriptor) {
    t.implementsCommand && !t.isInterface && !t.isAbstract
  }

  /** The listing entry of one attributed method. */
  function Describe(m: MethodDescriptor): ConsoleCommand
    requires m.command.Some?
  {
    NewConsoleCommand(m.command.value.name, m.command.value.description,
      m.aliases.GetOr([]), UsageFragment(m.params), m.example)
  }

  function DescribeMethods(ms: seq<MethodDescriptor>): (r: seq<ConsoleCommand>)
    ensures |r| == CountAttributed(ms)
    decreases |ms|
  {
    if |ms| == 0 then []
    else (if ms[0].command.Some? then [Describe(ms[0])] else []) + DescribeMethods(ms[1..])
  }

  /** Filter the concrete command types, take their methods, keep those with
      the command attribute, and describe each one: one entry per attributed
      method of a listed type. */
  function GetAllCommands(types: seq<TypeDescriptor>): (r: seq<ConsoleCommand>)
    ensures |r| == CountListed(types)
    decreases |types|
  {
    if |types| == 0 then []
    else (if IsCommandType(types[0]) then DescribeMethods(types[0].methods) else []) + GetAllCommands(types[1..])
  }

  /** The number of methods carrying the command attribute. */
  function CountAttributed(ms: seq<MethodDescriptor>): nat
    decreases |ms|
  {
    if |ms| == 0 then 0 else (if ms[0].command.Some? then 1 else 0) + CountAttributed(ms[1..])
  }

  /** The number of attributed methods over the concrete command types. */
  function CountListed(types: seq<TypeDescriptor>): nat
    decreases |types|
  {
    if |types| == 0 then 0
    else (if IsCommandType(types[0]) then CountAttributed(types[0].methods) else 0) + CountListed(types[1..])
  }

  lemma {:induction false} DescribeMethodsSpec(ms: seq<MethodDescriptor>)
    ensures |DescribeMethods(ms)| == CountAttributed(ms)
    ensures forall e :: e in DescribeMethods(ms) <==>
      exists j :: 0 <= j < |ms| && ms[j].command.Some? && e == Describe(ms[j])
    decreases |ms|
  {
    if |ms| > 0 {
      DescribeMethodsSpec(ms[1..]);
      forall e ensures e in DescribeMethods(ms) <==>
        exists j :: 0 <= j < |ms| && ms[j].command.Some? && e == Describe(ms[j])
      {
        if e in DescribeMethods(ms[1..]) {
          var j :| 0 <= j < |ms[1..]| && ms[1..][j].command.Some? && e == Describe(ms[1..][j]);
          assert ms[j + 1] == ms[1..][j];
        }
        if exists j :: 0 <= j < |ms| && ms[j].command.Some? && e == Describe(ms[j]) {
          var j :| 0 <= j < |ms| && ms[j].command.Some? && e == Describe(ms[j]);
          if j > 0 {
            assert ms[j] == ms[1..][j - 1];
          }
        }
      }
    }
  }

  /** An entry is listed exactly when it describes an attributed method of a
      concrete type implementing the command interface. */
  lemma {:induction false} ListedIff(types: seq<TypeDescriptor>)
    ensures forall e :: e in GetAllCommands(types) <==>
      exists i, j :: 0 <= i < |types| && IsCommandType(types[i]) && 0 <= j < |types[i].methods|
        && types[i].methods[j].command.Some? && e == Describe(types[i].methods[j])
    decreases |types|
  {
    if |types| > 0 {
      ListedIff(types[1..]);
      DescribeMethodsSpec(types[0].methods);
      forall e ensures e in GetAllCommands(types) <==>
        exists i, j :: 0 <= i < |types| && IsCommandType(types[i]) && 0 <= j < |types[i].methods|
          && types[i].methods[j].command.Some? && e == Describe(types[i].methods[j])
      {
        if e in GetAllCommands(types[1..]) {
          var i, j :| 0 <= i < |types[1..]| && IsCommandType(types[1..][i]) && 0 <= j < |types[1..][i].methods|
            && types[1..][i].methods[j].command.Some? && e == Describe(types[1..][i].methods[j]);
          assert types[i + 1] == types[1..][i];
        }
        if exists i, j :: (0 <= i < |types| && IsCommandType(types[i]) && 0 <= j < |types[i].methods|
                           && types[i].methods[j].command.Some? && e == Describe(types[i].methods[j]))
        {
          var i, j :| 0 <= i < |types| && IsCommandType(types[i]) && 0 <= j < |types[i].methods|
            && types[i].methods[j].command.Some? && e == Describe(types[i].methods[j]);
          if i > 0 {
            assert types[i] == types[1..][i - 1];
          }
        }
      }
    }
  }

  /** A concrete command type contributes one entry per attributed method;
      any other type contributes none. */
  lemma ListingOfOneType(t: TypeDescriptor)
    ensures |GetAllCommands([t])| == if IsCommandType(t) then CountAttributed(t.methods) else 0
  {
    DescribeMethodsSpec(t.methods);
    assert [t][1..] == [];
  }

  /** The listing runs type by type, in order. */
  lemma {:induction false} ListingConcat(types: seq<TypeDescriptor>, more: seq<TypeDescriptor>)
    ensures GetAllCommands(types + more) == GetAllCommands(types) + GetAllCommands(more)
    decreases |types|
  {
    if |types| > 0 {
      assert (types + more)[0] == types[0] && (types + more)[1..] == types[1..] + more;
      ListingConcat(types[1..], more);
    } else {
      assert types + more == more;
    }
  }

  // ---------------------------------------------------------------------
  // The question prompt (`AskQuestionAsync`)

  /** One prompt: a null read counts as empty; a non-empty input is the
      answer, otherwise the default (which may be null). */
  function Answer(read: Option<string>, default: Option<string>): (r: Option<string>)
    ensures r == default || (read.Some? && r == read && |read.value| >= 1)
  {
    var input := read.GetOr("");
    if |input| >= 1 then Some(input) else default
  }

  /** The answer rule: a non-empty input is the answer, and an empty or null
      read yields the default; so with a default every prompt answers, and
      without one an empty input asks again. */
  lemma AnswerRule(read: Option<string>, default: Option<string>)
    ensures read.Some? && |read.value| >= 1 ==> Answer(read, default) == read
    ensures (read.None? || read.value == "") ==> Answer(read, default) == default
    ensures Answer(read, default).None? <==> default.None? && (read.None? || read.value == "")
  {
  }

  /** How the prompt ended: with an answer after some number of prompts,
      or still asking when the reads ran out. */
  datatype Asked = Answered(answer: string, prompts: nat) | StillAsking

  /** `AskQuestionAsync` over a finite sequence of reads: prompt until an
      answer is non-null. The result is the first prompt's answer that is
      non-null; an `Answered` outcome always carries a string. */
  method AskQuestion(lines: seq<Option<string>>, default: Option<string>) returns (r: Asked)
    ensures r.Answered? ==>
      && 1 <= r.prompts <= |lines|
      && Answer(lines[r.prompts - 1], default) == Some(r.answer)
      && forall k :: 0 <= k < r.prompts - 1 ==> Answer(lines[k], default).None?
    ensures r.StillAsking? ==> forall k :: 0 <= k < |lines| ==> Answer(lines[k], default).None?
  {
    var answer: Option<string> := None;
    var i := 0;
    while answer.None? && i < |lines|
      invariant 0 <= i <= |lines|
      invariant answer.None? ==> forall k :: 0 <= k < i ==> Answer(lines[k], default).None?
      invariant answer.Some? ==>
        && 1 <= i && answer == Answer(lines[i - 1], default)
        && forall k :: 0 <= k < i - 1 ==> Answer(lines[k], default).None?
      decreases |lines| - i, answer.None?
    {
      var input := lines[i].GetOr("");
      answer := if |input| >= 1 then Some(input) else default;
      i := i + 1;
    }
    if answer.Some? {
      r := Answered(answer.value, i);
    } else {
      r := StillAsking;
    }
  }

  /** With a default, the first prompt always answers. */
  lemma DefaultAnswersFirstPrompt(line: Option<string>, default: string)
    ensures Answer(line, Some(default)).Some?
    ensures Answer(line, Some(default)) == Some(if line.Some? && |line.value| >= 1 then line.value else default)
  {
  }
}
