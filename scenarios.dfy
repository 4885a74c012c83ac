/** Worked examples of the whole pipeline on fixed inputs. */
module Scenarios {
  import opened Wrappers
  import opened Text
  import opened CommandBase
  import opened CommandHandler

  function Echo(): Command {
    Command("echo", "Prints its argument", ["e"], [Param("text", Str, false, None)], false)
  }

  /** Registering "echo" with alias "e" yields both keys. */
  lemma EchoTable()
    ensures CommandTable([Echo()]) == Success(map["echo" := Echo(), "e" := Echo()])
  {
    var empty: Table := map[];
    var named := empty["echo" := Echo()];
    assert ToLower("echo") == "echo";
    assert ToLower("e") == "e";
    assert !IsBlank("e") by { assert !IsWhiteSpace("e"[0]); }
    assert RegisterAliases(named, ["e"], Echo()) == named["e" := Echo()] by {
      assert ["e"][1..] == [];
    }
    assert Register(empty, Echo()) == Success(named["e" := Echo()]);
    assert [Echo()][1..] == [];
  }

  /** With that table, "e hello" runs echo on "hello". */
  lemma EchoByAlias()
    ensures DispatchLine(CommandTable([Echo()]).value, "e hello") == Ran(Echo(), Invoked([Some(StrValue("hello"))]))
  {
    EchoTable();
    var t := map["echo" := Echo(), "e" := Echo()];
    assert "e" + [' '] + "hello" == "e hello";
    assert NoSeparator(["hello"], ' ');
    DispatchTokens(t, "e", ["hello"]);
    assert Execution(Echo(), ["hello"]) == Invoked([Some(StrValue("hello"))]);
  }

  /** A bare "echo" is an arity mismatch. */
  lemma EchoWithoutArgument()
    ensures DispatchLine(CommandTable([Echo()]).value, "echo") == Ran(Echo(), ArityMismatch(1, 0))
  {
    EchoTable();
    var t := map["echo" := Echo(), "e" := Echo()];
    DispatchTokens(t, "echo", []);
  }

  /** "unknown foo" names no command. */
  lemma UnknownCommand()
    ensures DispatchLine(CommandTable([Echo()]).value, "unknown foo") == Unknown("unknown")
  {
    EchoTable();
    var t := map["echo" := Echo(), "e" := Echo()];
    assert "unknown" + [' '] + "foo" == "unknown foo";
    assert NoSeparator(["foo"], ' ');
    assert "unknown" !in t by {
      assert |"unknown"| != |"echo"| && |"unknown"| != |"e"|;
    }
    DispatchTokens(t, "unknown", ["foo"]);
  }

  /** `greet(name: string, times: int = 1)` on ["Alice"] binds ("Alice", 1). */
  lemma GreetDefaultScenario()
    ensures Execution(
      Command("greet", "", [], [Param("name", Str, false, None), Param("times", Int32, true, Some(IntValue(1)))], false),
      ["Alice"]) == Invoked([Some(StrValue("Alice")), Some(IntValue(1))])
  {
  }

  function Paint(): Command {
    Command("paint", "", [], [Param("colour", Enum("Color", ["RED", "GREEN", "BLUE"]), false, None)], false)
  }

  /** An enumeration parameter: "green" binds GREEN; "purple" aborts. */
  lemma EnumScenario()
    ensures Execution(Paint(), ["green"]) == Invoked([Some(EnumValue("Color", "GREEN"))])
    ensures Execution(Paint(), ["purple"]) == Aborted(0)
  {
    assert Trim("green") == "green";
    assert !EqualsIgnoreCase("RED", "green");
    assert EqualsIgnoreCase("GREEN", "green");
    assert Trim("purple") == "purple";
    assert !EqualsIgnoreCase("RED", "purple") && !EqualsIgnoreCase("GREEN", "purple") && !EqualsIgnoreCase("BLUE", "purple");
  }

  function Count(): Command {
    Command("count", "", [], [Param("n", Int32, false, None)], false)
  }

  /** An integer parameter: "42" binds 42. */
  lemma IntegerScenario()
    ensures Execution(Count(), ["42"]) == Invoked([Some(IntValue(42))])
  {
    assert Coerce(Int32, "42") == Some(IntValue(42)) by {
      assert DecimalString(42) == "42";
      CoerceInt32(42, "42");
    }
  }

  /** An integer parameter: "abc" aborts at the first slot. */
  lemma IntegerRejected()
    ensures Execution(Count(), ["abc"]) == Aborted(0)
  {
    assert Coerce(Int32, "abc") == None by {
      TrimKeeps("abc", IsNumberWhiteSpace);
      assert !AllDigits("abc") by { assert !IsDigit("abc"[0]); }
    }
  }

  /** A parameter of interface type (say `IComparable`) is not a class: a
      string does not convert to it, so the call aborts. A parameter of some
      other class type gets null instead, and the handler still runs. */
  lemma ReferenceParameterScenario()
    ensures Execution(Command("cmp", "", [], [Param("other", Interface("IComparable"), false, None)], false), ["x"])
      == Aborted(0)
    ensures Execution(Command("use", "", [], [Param("target", OtherClass("Widget"), false, None)], false), ["x"])
      == Invoked([None])
  {
  }
}
