/** `ConsoleCommandHandler`: the table from lower-cased names and aliases to
    commands, the dispatch of one input line, and the read loop's per-line
    decision. */
module CommandHandler {
  import opened Wrappers
  import opened Text
  import opened CommandBase

  /** The `_commands` dictionary. */
  type Table = map<string, Command>

  /** `Dictionary.Add` throws on a key that is already present. */
  datatype BuildError = DuplicateKey(key: string)

  // ---------------------------------------------------------------------
  // Building the table

  /** The alias loop for one command: blank aliases are skipped, and
      `TryAdd` leaves a key that is already present alone. Every existing
      entry survives, and every new key names `c`. */
  function RegisterAliases(t: Table, aliases: seq<string>, c: Command): (r: Table)
    ensures Extends(t, r)
    ensures forall k :: k in r && k !in t ==> r[k] == c
    decreases |aliases|
  {
    if |aliases| == 0 then t
    else
      var a := aliases[0];
      var t' := if IsBlank(a) || ToLower(a) in t then t else t[ToLower(a) := c];
      RegisterAliases(t', aliases[1..], c)
  }

  /** One command: `Add` of the lower-cased name, then its aliases. It fails
      exactly when the name is taken; otherwise the old entries survive and
      the name resolves to `c`. */
  function Register(t: Table, c: Command): (r: Result<Table, BuildError>)
    ensures r.Failure? <==> ToLower(c.name) in t
    ensures r.Failure? ==> r.error == DuplicateKey(ToLower(c.name))
    ensures r.Success? ==> Extends(t, r.value) && ToLower(c.name) in r.value && r.value[ToLower(c.name)] == c
  {
    var key := ToLower(c.name);
    if key in t then Failure(DuplicateKey(key))
    else Success(RegisterAliases(t[key := c], c.aliases, c))
  }

  /** The commands in order, stopping at the first failing `Add`; a
      successful run keeps every starting entry. */
  function RegisterAll(t: Table, cs: seq<Command>): (r: Result<Table, BuildError>)
    ensures r.Success? ==> Extends(t, r.value)
    ensures r.Failure? ==> |cs| >= 1
    decreases |cs|
  {
    if |cs| == 0 then Success(t)
    else
      match Register(t, cs[0])
      case Failure(e) => Failure(e)
      case Success(t') => RegisterAll(t', cs[1..])
  }

  /** The table the constructor builds from the injected commands. A
      failure needs a second command whose name is taken, and the first
      command's name always resolves to it. */
  function CommandTable(cs: seq<Command>): (r: Result<Table, BuildError>)
    ensures r.Failure? ==> |cs| >= 2
    ensures r.Success? && |cs| >= 1 ==> ToLower(cs[0].name) in r.value && r.value[ToLower(cs[0].name)] == cs[0]
  {
    RegisterAll(map[], cs)
  }

  /** The constructor's nested loops. */
  method BuildCommandTable(cs: seq<Command>) returns (r: Result<Table, BuildError>)
    ensures r == CommandTable(cs)
  {
    var table: Table := map[];
    for i := 0 to |cs|
      invariant RegisterAll(table, cs[i..]) == CommandTable(cs)
    {
      var c := cs[i];
      assert cs[i..][0] == c && cs[i..][1..] == cs[i + 1..];
      var key := ToLower(c.name);
      if key in table {
        return Failure(DuplicateKey(key));
      }
      table := table[key := c];
      ghost var named := table;
      for j := 0 to |c.aliases|
        invariant RegisterAliases(table, c.aliases[j..], c) == RegisterAliases(named, c.aliases, c)
      {
        var alias := c.aliases[j];
        assert c.aliases[j..][0] == alias && c.aliases[j..][1..] == c.aliases[j + 1..];
        if IsBlank(alias) {
          continue;
        }
        var aliasKey := ToLower(alias);
        if aliasKey !in table {
          table := table[aliasKey := c];
        }
      }
    }
    return Success(table);
  }

  // ---------------------------------------------------------------------
  // Which keys a command claims

  /** The keys a command's aliases ask for: the lower-cased non-blank ones. */
  function AliasKeys(aliases: seq<string>): set<string>
    decreases |aliases|
  {
    if |aliases| == 0 then {}
    else (if IsBlank(aliases[0]) then {} else {ToLower(aliases[0])}) + AliasKeys(aliases[1..])
  }

  /** Every key a command asks for: its lower-cased name and alias keys. */
  function Claimed(c: Command): set<string> {
    {ToLower(c.name)} + AliasKeys(c.aliases)
  }

  /** Every key a sequence of commands asks for. */
  function ClaimedBy(cs: seq<Command>): set<string>
    decreases |cs|
  {
    if |cs| == 0 then {} else Claimed(cs[0]) + ClaimedBy(cs[1..])
  }

  /** Command `j`'s name is already a key when it is added: an earlier name
      or alias (or the starting table) claimed it. */
  predicate Collides(t: Table, cs: seq<Command>, j: nat)
    requires j < |cs|
  {
    ToLower(cs[j].name) in t.Keys + ClaimedBy(cs[..j])
  }

  /** `t'` keeps every entry of `t`. */
  predicate Extends(t: Table, t': Table) {
    forall k :: k in t ==> k in t' && t'[k] == t[k]
  }

  lemma {:induction false} AliasKeysSpec(aliases: seq<string>)
    ensures forall k :: k in AliasKeys(aliases) <==>
      exists a :: a in aliases && !IsBlank(a) && ToLower(a) == k
    decreases |aliases|
  {
    if |aliases| > 0 {
      AliasKeysSpec(aliases[1..]);
      forall k ensures k in AliasKeys(aliases) <==> exists a :: a in aliases && !IsBlank(a) && ToLower(a) == k {
        if exists a :: a in aliases && !IsBlank(a) && ToLower(a) == k {
          var a :| a in aliases && !IsBlank(a) && ToLower(a) == k;
          if a != aliases[0] {
            assert a in aliases[1..];
          }
        }
      }
    }
  }

  lemma {:induction false} ClaimedBySpec(cs: seq<Command>)
    ensures forall k :: k in ClaimedBy(cs) <==> exists i :: 0 <= i < |cs| && k in Claimed(cs[i])
    decreases |cs|
  {
    if |cs| > 0 {
      ClaimedBySpec(cs[1..]);
      forall k ensures k in ClaimedBy(cs) <==> exists i :: 0 <= i < |cs| && k in Claimed(cs[i]) {
        if k in ClaimedBy(cs[1..]) {
          var i :| 0 <= i < |cs[1..]| && k in Claimed(cs[1..][i]);
          assert k in Claimed(cs[i + 1]);
        }
        if exists i :: 0 <= i < |cs| && k in Claimed(cs[i]) {
          var i :| 0 <= i < |cs| && k in Claimed(cs[i]);
          if i > 0 {
            assert cs[i] == cs[1..][i - 1];
          }
        }
      }
    }
  }

  /** The alias loop adds exactly the alias keys not yet present, each for
      this command, and never changes an existing entry. */
  lemma {:induction false} RegisterAliasesSpec(t: Table, aliases: seq<string>, c: Command)
    ensures var r := RegisterAliases(t, aliases, c);
      && r.Keys == t.Keys + AliasKeys(aliases)
      && Extends(t, r)
      && forall k :: k in AliasKeys(aliases) && k !in t ==> r[k] == c
    decreases |aliases|
  {
    if |aliases| > 0 {
      var a := aliases[0];
      var t' := if IsBlank(a) || ToLower(a) in t then t else t[ToLower(a) := c];
      RegisterAliasesSpec(t', aliases[1..], c);
    }
  }

  /** One command: it fails exactly when its lower-cased name is already a
      key; otherwise it adds its claimed keys that were absent, for itself. */
  lemma RegisterSpec(t: Table, c: Command)
    ensures Register(t, c).Failure? <==> ToLower(c.name) in t
    ensures Register(t, c).Success? ==>
      var r := Register(t, c).value;
      && r.Keys == t.Keys + Claimed(c)
      && Extends(t, r)
      && forall k :: k in Claimed(c) && k !in t ==> r[k] == c
  {
    if ToLower(c.name) !in t {
      RegisterAliasesSpec(t[ToLower(c.name) := c], c.aliases, c);
    }
  }

  lemma ClaimedByPrefix(cs: seq<Command>, j: nat)
    requires 0 < |cs| && j < |cs|
    ensures ClaimedBy(cs[..j + 1]) == Claimed(cs[0]) + ClaimedBy(cs[1..][..j])
  {
    assert cs[..j + 1][0] == cs[0];
    assert cs[..j + 1][1..] == cs[1..][..j];
  }

  /** Building from a table: the result keeps every starting entry, and its
      keys are the starting keys plus every claimed key. */
  lemma {:induction false} RegisterAllSuccess(t: Table, cs: seq<Command>)
    requires RegisterAll(t, cs).Success?
    ensures RegisterAll(t, cs).value.Keys == t.Keys + ClaimedBy(cs)
    ensures Extends(t, RegisterAll(t, cs).value)
    decreases |cs|
  {
    if |cs| > 0 {
      RegisterSpec(t, cs[0]);
      RegisterAllSuccess(Register(t, cs[0]).value, cs[1..]);
    }
  }

  /** Building from a table: a key that command `i` claims and that neither
      the starting table nor an earlier command claimed maps to command `i`. */
  lemma {:induction false} RegisterAllFirstClaimant(t: Table, cs: seq<Command>, i: nat, k: string)
    requires RegisterAll(t, cs).Success?
    requires i < |cs| && k in Claimed(cs[i]) && k !in t.Keys + ClaimedBy(cs[..i])
    ensures k in RegisterAll(t, cs).value && RegisterAll(t, cs).value[k] == cs[i]
    decreases |cs|
  {
    RegisterSpec(t, cs[0]);
    var t1 := Register(t, cs[0]).value;
    if i == 0 {
      RegisterAllSuccess(t1, cs[1..]);
    } else {
      ClaimedByPrefix(cs, i - 1);
      assert cs[i] == cs[1..][i - 1];
      RegisterAllFirstClaimant(t1, cs[1..], i - 1, k);
    }
  }

  /** Building from a table fails exactly when some command's lower-cased
      name is already a key when its turn comes. */
  lemma {:induction false} RegisterAllFailure(t: Table, cs: seq<Command>)
    ensures RegisterAll(t, cs).Failure? <==> exists j :: 0 <= j < |cs| && Collides(t, cs, j)
    decreases |cs|
  {
    if |cs| > 0 {
      RegisterSpec(t, cs[0]);
      assert cs[..0] == [];
      if Register(t, cs[0]).Failure? {
        assert Collides(t, cs, 0);
      } else {
        var t1 := Register(t, cs[0]).value;
        RegisterAllFailure(t1, cs[1..]);
        forall j | 0 < j < |cs| ensures Collides(t, cs, j) <==> Collides(t1, cs[1..], j - 1) {
          ClaimedByPrefix(cs, j - 1);
          assert cs[1..][j - 1] == cs[j];
        }
        if exists j :: 0 <= j < |cs| && Collides(t, cs, j) {
          var j :| 0 <= j < |cs| && Collides(t, cs, j);
          assert Collides(t1, cs[1..], j - 1);
        }
        if exists j :: 0 <= j < |cs[1..]| && Collides(t1, cs[1..], j) {
          var j :| 0 <= j < |cs[1..]| && Collides(t1, cs[1..], j);
          assert Collides(t, cs, j + 1);
        }
      }
    }
  }

  // ---------------------------------------------------------------------
  // Properties of the built table

  /** The build fails exactly when some command's lower-cased name is already
      a key by its turn, whether an earlier name or an earlier alias claimed
      it. */
  lemma BuildFailsIffNameTaken(cs: seq<Command>)
    ensures CommandTable(cs).Failure? <==>
      exists j :: 0 <= j < |cs| && ToLower(cs[j].name) in ClaimedBy(cs[..j])
  {
    RegisterAllFailure(map[], cs);
    assert forall j :: 0 <= j < |cs| ==> (Collides(map[], cs, j) <==> ToLower(cs[j].name) in ClaimedBy(cs[..j]));
  }

  /** Two commands whose names lower-case alike, or a later command whose
      name lower-cases like an earlier command's non-blank alias, make the
      build fail. */
  lemma BuildFailsOnTakenName(cs: seq<Command>, i: nat, j: nat)
    requires i < j < |cs|
    requires ToLower(cs[j].name) in Claimed(cs[i])
    ensures CommandTable(cs).Failure?
  {
    ClaimedBySpec(cs[..j]);
    assert cs[..j][i] == cs[i];
    BuildFailsIffNameTaken(cs);
  }

  /** After a successful build every command's lower-cased name maps to that
      command. */
  lemma NamesResolve(cs: seq<Command>)
    requires CommandTable(cs).Success?
    ensures forall i :: 0 <= i < |cs| ==>
      ToLower(cs[i].name) in CommandTable(cs).value && CommandTable(cs).value[ToLower(cs[i].name)] == cs[i]
  {
    BuildFailsIffNameTaken(cs);
    var empty: Table := map[];
    forall i | 0 <= i < |cs|
      ensures ToLower(cs[i].name) in CommandTable(cs).value && CommandTable(cs).value[ToLower(cs[i].name)] == cs[i]
    {
      assert ToLower(cs[i].name) !in empty.Keys + ClaimedBy(cs[..i]);
      RegisterAllFirstClaimant(empty, cs, i, ToLower(cs[i].name));
    }
  }

  /** After a successful build the keys are exactly the keys the commands
      claim. */
  lemma KeysAreClaims(cs: seq<Command>)
    requires CommandTable(cs).Success?
    ensures CommandTable(cs).value.Keys == ClaimedBy(cs)
  {
    var empty: Table := map[];
    RegisterAllSuccess(empty, cs);
  }

  /** After a successful build a key maps to the first command that claimed
      it: an alias never displaces an earlier name or alias. */
  lemma FirstWriterWins(cs: seq<Command>, i: nat, k: string)
    requires CommandTable(cs).Success?
    requires i < |cs| && k in Claimed(cs[i]) && k !in ClaimedBy(cs[..i])
    ensures k in CommandTable(cs).value && CommandTable(cs).value[k] == cs[i]
  {
    var empty: Table := map[];
    assert k !in empty.Keys + ClaimedBy(cs[..i]);
    RegisterAllFirstClaimant(empty, cs, i, k);
  }

  /** Registering more commands only adds entries. */
  lemma TableOnlyGrows(t: Table, cs: seq<Command>)
    requires RegisterAll(t, cs).Success?
    ensures Extends(t, RegisterAll(t, cs).value)
  {
    RegisterAllSuccess(t, cs);
  }

  /** Every key of a built table is its own lower-case form. */
  lemma KeysAreLowerCase(cs: seq<Command>)
    requires CommandTable(cs).Success?
    ensures forall k :: k in CommandTable(cs).value ==> IsLowerCase(k)
  {
    KeysAreClaims(cs);
    ClaimedBySpec(cs);
    forall k | k in CommandTable(cs).value ensures IsLowerCase(k) {
      var i :| 0 <= i < |cs| && k in Claimed(cs[i]);
      AliasKeysSpec(cs[i].aliases);
      if k == ToLower(cs[i].name) {
        ToLowerIsLowerCase(cs[i].name);
      } else {
        var a :| a in cs[i].aliases && !IsBlank(a) && ToLower(a) == k;
        ToLowerIsLowerCase(a);
      }
    }
  }

  /** A blank alias never becomes a key: a blank key can only come from a
      blank command name. */
  lemma BlankAliasesNeverKeys(cs: seq<Command>)
    requires CommandTable(cs).Success?
    ensures forall k :: k in CommandTable(cs).value && IsBlank(k) ==>
      exists i :: 0 <= i < |cs| && ToLower(cs[i].name) == k
  {
    KeysAreClaims(cs);
    ClaimedBySpec(cs);
    forall k | k in CommandTable(cs).value && IsBlank(k)
      ensures exists i :: 0 <= i < |cs| && ToLower(cs[i].name) == k
    {
      var i :| 0 <= i < |cs| && k in Claimed(cs[i]);
      AliasKeysSpec(cs[i].aliases);
      if k != ToLower(cs[i].name) {
        var a :| a in cs[i].aliases && !IsBlank(a) && ToLower(a) == k;
        ToLowerKeepsBlankness(a);
        assert false;
      }
    }
  }

  // ---------------------------------------------------------------------
  // Dispatching one line (`HandleCommandAsync`)

  /** What handling a line did: the first token named no command, or the
      command it named ran with the given outcome. */
  datatype Dispatch = Unknown(name: string) | Ran(command: Command, outcome: Outcome)

  /** Split on the single character ' ', look the first token up exactly as
      typed (it is not lower-cased), and execute with the remaining tokens.
      The name looked up is the space-free text the line starts with; when
      it is a key, that command runs on the other tokens. */
  function DispatchLine(t: Table, input: string): (d: Dispatch)
    ensures var name := Split(input, ' ')[0];
      && name <= input && ' ' !in name
      && (d.Unknown? <==> name !in t)
      && (d.Unknown? ==> d.name == name)
      && (d.Ran? ==> d.command == t[name] && d.outcome == Execution(t[name], Split(input, ' ')[1..]))
  {
    SplitHead(input, ' ');
    var parts := Split(input, ' ');
    var name := parts[0];
    if name in t then Ran(t[name], Execution(t[name], parts[1..])) else Unknown(name)
  }

  /** A line built from a space-free command name and space-free arguments
      runs that command on exactly those arguments, or is unknown. */
  lemma DispatchTokens(t: Table, name: string, args: seq<string>)
    requires ' ' !in name
    requires NoSeparator(args, ' ')
    ensures DispatchLine(t, Join([name] + args, ' ')) ==
      if name in t then Ran(t[name], Execution(t[name], args)) else Unknown(name)
  {
    var parts := [name] + args;
    assert NoSeparator(parts, ' ') by {
      forall i | 0 <= i < |parts| ensures ' ' !in parts[i] {
        if i > 0 { assert parts[i] == args[i - 1]; }
      }
    }
    SplitJoin(parts, ' ');
    assert parts[1..] == args;
  }

  /** The command name is the text before the first space; when there is a
      space, the arguments are the pieces of the text after it. */
  lemma DispatchReadsFirstToken(t: Table, input: string)
    ensures var name := Split(input, ' ')[0];
      && name <= input && ' ' !in name
      && (DispatchLine(t, input).Unknown? <==> name !in t)
      && (DispatchLine(t, input).Ran? && |name| < |input| ==>
            DispatchLine(t, input).outcome == Execution(t[name], Split(input[|name| + 1..], ' ')))
      && (DispatchLine(t, input).Ran? && |name| == |input| ==>
            DispatchLine(t, input).outcome == Execution(t[name], []))
  {
    SplitHead(input, ' ');
  }

  /** Over a built table, a first token holding an upper-case letter never
      names a command. */
  lemma UpperCaseTokenIsUnknown(cs: seq<Command>, input: string)
    requires CommandTable(cs).Success?
    requires HasUpperCaseLetter(Split(input, ' ')[0])
    ensures DispatchLine(CommandTable(cs).value, input).Unknown?
  {
    KeysAreLowerCase(cs);
    UpperCaseIsNotLowerCase(Split(input, ' ')[0]);
  }

  /** What the read loop does with one read: `None` is a null read. */
  datatype LineEvent = Discarded | Handled(dispatch: Dispatch)

  /** A null read counts as the empty string; a blank line is discarded,
      any other line is dispatched unchanged. */
  function LineStep(t: Table, read: Option<string>): (e: LineEvent)
    ensures e.Discarded? <==> IsNullOrWhiteSpace(read)
    ensures e.Handled? ==> read.Some? && e.dispatch == DispatchLine(t, read.value)
  {
    var input := read.GetOr("");
    if IsBlank(input) then Discarded else Handled(DispatchLine(t, input))
  }

  // ---------------------------------------------------------------------
  // The handler object

  class ConsoleCommandHandler {
    const commands: Table

    /** The constructor throws when the build fails; a handler exists only
        for commands whose table builds. */
    constructor (cs: seq<Command>)
      requires CommandTable(cs).Success?
      ensures commands == CommandTable(cs).value
    {
      var r := BuildCommandTable(cs);
      commands := r.value;
    }

    /** `HandleCommandAsync`. Its steps are those of `DispatchLine`, which
        specifies it; the properties of a dispatch are stated about that
        function. */
    method HandleCommand(input: string) returns (d: Dispatch)
      ensures d == DispatchLine(commands, input)
    {
      var parts := Split(input, ' ');
      var name := parts[0];
      if name in commands {
        var command := commands[name];
        var o := InternallyExecute(command, parts[1..]);
        d := Ran(command, o);
      } else {
        d := Unknown(name);
      }
    }

    /** `StartAsync` over a finite sequence of reads; the end of the
        sequence stands for cancellation. */
    method Start(lines: seq<Option<string>>) returns (events: seq<LineEvent>)
      ensures |events| == |lines|
      ensures forall i :: 0 <= i < |lines| ==> events[i] == LineStep(commands, lines[i])
    {
      events := [];
      var i := 0;
      while i < |lines|
        invariant 0 <= i <= |lines|
        invariant |events| == i
        invariant forall j :: 0 <= j < i ==> events[j] == LineStep(commands, lines[j])
      {
        var input := lines[i].GetOr("");
        if IsBlank(input) {
          events := events + [Discarded];
        } else {
          var d := HandleCommand(input);
          events := events + [Handled(d)];
        }
        i := i + 1;
      }
    }
  }
}
