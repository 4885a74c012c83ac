/** `ConsoleCommand`: the listing record of one command, with the usage and
    example lines derived from the command name. */
module CommandInfo {
  import opened Wrappers
  import opened Text

  datatype ConsoleCommand = ConsoleCommand(
    name: string,
    description: string,
    aliases: seq<string>,
    usage: string,
    example: Option<string>)

  /** The constructor: name, description and aliases are kept, the usage is
      the name, a space and the usage fragment, and the example is dropped
      when blank and otherwise prefixed with the name and a space. */
  function NewConsoleCommand(name: string, description: string, aliases: seq<string>,
                             usage: string, example: Option<string>): (c: ConsoleCommand)
    ensures c.name == name && c.description == description && c.aliases == aliases
    ensures |c.usage| == |name| + 1 + |usage| && c.usage[..|name|] == name && c.usage[|name|] == ' '
    ensures c.example.None? <==> IsNullOrWhiteSpace(example)
  {
    ConsoleCommand(name, description, aliases, name + " " + usage,
      if IsNullOrWhiteSpace(example) then None else Some(name + " " + example.value))
  }

  /** The usage line starts with the name and a space and ends with the
      usage fragment; read as an input line, its first token is the command
      name and its remaining tokens are the fragment's. */
  lemma UsageStartsWithName(name: string, description: string, aliases: seq<string>,
                            usage: string, example: Option<string>)
    ensures var u := NewConsoleCommand(name, description, aliases, usage, example).usage;
      && |u| == |name| + 1 + |usage|
      && u[..|name|] == name && u[|name|] == ' ' && u[|name| + 1..] == usage
    ensures ' ' !in name ==>
      Split(NewConsoleCommand(name, description, aliases, usage, example).usage, ' ') == [name] + Split(usage, ' ')
  {
    var u := name + " " + usage;
    assert u[..|name|] == name && u[|name| + 1..] == usage;
    if ' ' !in name {
      assert u == name + [' '] + usage;
      SplitAfterFirst(name, usage, ' ');
    }
  }

  /** The example is null exactly when the supplied example is null, empty
      or white space only; otherwise it is the name, a space and the
      example, and read as an input line its first token is the name. */
  lemma ExampleRule(name: string, description: string, aliases: seq<string>,
                    usage: string, example: Option<string>)
    ensures var e := NewConsoleCommand(name, description, aliases, usage, example).example;
      && (e.None? <==> IsNullOrWhiteSpace(example))
      && (e.Some? ==> e.value == name + " " + example.value)
    ensures ' ' !in name && !IsNullOrWhiteSpace(example) ==>
      Split(NewConsoleCommand(name, description, aliases, usage, example).example.value, ' ')
        == [name] + Split(example.value, ' ')
  {
    if ' ' !in name && !IsNullOrWhiteSpace(example) {
      assert name + " " + example.value == name + [' '] + example.value;
      SplitAfterFirst(name, example.value, ' ');
    }
  }
}
