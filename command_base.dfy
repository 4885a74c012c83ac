/** `ConsoleCommandBase`: how a command checks the number of string arguments
    against its handler's parameters, coerces each argument to its
    parameter's type, and binds the argument array the handler is invoked
    with. Reflection is replaced by an explicit command record whose
    parameter list is what `MethodInfo.GetParameters()` would return. */
module CommandBase {
  import opened Wrappers
  import opened Text

  // ---------------------------------------------------------------------
  // Types, values, parameters, commands

  /** The parameter types the coercion tells apart. `Nullable(u)` is
      `Nullable<u>`; `Object` is `System.Object`; `OtherClass` is any other
      class, `Interface` any interface type and `OtherStruct` any other
      value type. A string converts to none of the last three. */
  datatype ParamType =
    | Int32
    | Boolean
    | Str
    | Object
    | Enum(enumName: string, members: seq<string>)
    | Nullable(underlying: ParamType)
    | OtherClass(className: string)
    | Interface(interfaceName: string)
    | OtherStruct(structName: string)

  /** `Type.IsClass`: true of classes, including `String` and `Object`.
      Interfaces are reference types but not classes; `Nullable<T>` and
      enumerations are value types. */
  predicate IsClass(t: ParamType) {
    t.Str? || t.Object? || t.OtherClass?
  }

  /** `Type.Name`, as the usage text shows it. */
  function TypeName(t: ParamType): string {
    match t
    case Int32 => "Int32"
    case Boolean => "Boolean"
    case Str => "String"
    case Object => "Object"
    case Enum(name, _) => name
    case Nullable(_) => "Nullable`1"
    case OtherClass(name) => name
    case Interface(name) => name
    case OtherStruct(name) => name
  }

  /** A value the handler can receive in a parameter of type `t`. */
  predicate HasType(v: Value, t: ParamType) {
    match t
    case Int32 => v.IntValue? && Int32Min <= v.i <= Int32Max
    case Boolean => v.BoolValue?
    case Str => v.StrValue?
    case Object => v.StrValue?
    case Enum(name, members) => v.EnumValue? && v.enumName == name && v.member in members
    case Nullable(u) => HasType(v, u)
    case OtherClass(_) => false
    case Interface(_) => false
    case OtherStruct(_) => false
  }

  /** A bound argument value; a slot of the bound array is `None` for null. */
  datatype Value =
    | IntValue(i: int)
    | BoolValue(b: bool)
    | StrValue(s: string)
    | EnumValue(enumName: string, member: string)

  /** `ParameterInfo`: name, type, `HasDefaultValue` and `DefaultValue`
      (a default may itself be null). */
  datatype Param = Param(name: string, typ: ParamType, hasDefault: bool, defaultValue: Option<Value>)

  /** A command as the base class sees it after discovery: the attribute's
      name, description and `IgnoreExtraArgs` flag, the alias list, and the
      handler method's parameters. */
  datatype Command = Command(
    name: string,
    description: string,
    aliases: seq<string>,
    params: seq<Param>,
    ignoreExtraArgs: bool)

  // ---------------------------------------------------------------------
  // Coercion (`GetParameterValue`)

  /** `Enum.Parse(type, token, ignoreCase: true)` by member name: the first
      member, in the order of `Enum.GetNames`, equal to the trimmed token
      ignoring case. */
  function ParseEnum(members: seq<string>, token: string): (r: Option<string>)
    ensures r.Some? ==> r.value in members && EqualsIgnoreCase(r.value, Trim(token))
    decreases |members|
  {
    if |members| == 0 then None
    else if EqualsIgnoreCase(members[0], Trim(token)) then Some(members[0])
    else ParseEnum(members[1..], token)
  }

  /** `Convert.ChangeType(token, t)` for a string `token`: a converted value
      has the target type, and string and object targets receive the token
      itself. */
  function ChangeType(t: ParamType, token: string): (r: Option<Value>)
    ensures r.Some? ==> HasType(r.value, t)
    ensures t.Str? || t.Object? ==> r == Some(StrValue(token))
  {
    match t
    case Int32 =>
      var n := ParseInt32(token);
      if n.Some? then Some(IntValue(n.value)) else None
    case Boolean =>
      var b := ParseBoolean(token);
      if b.Some? then Some(BoolValue(b.value)) else None
    case Str => Some(StrValue(token))
    case Object => Some(StrValue(token))
    case Enum(_, _) => None
    case Nullable(_) => None
    case OtherClass(_) => None
    case Interface(_) => None
    case OtherStruct(_) => None
  }

  /** `GetParameterValue`: an enumeration is parsed by member name; any other
      type converts to the underlying type of a nullable, or to the type
      itself. `None` is the null the source returns on failure; any other
      result is a value of the parameter's type. */
  function Coerce(t: ParamType, token: string): (r: Option<Value>)
    ensures r.Some? ==> HasType(r.value, t)
  {
    if t.Enum? then
      var m := ParseEnum(t.members, token);
      if m.Some? then Some(EnumValue(t.enumName, m.value)) else None
    else
      ChangeType(if t.Nullable? then t.underlying else t, token)
  }

  lemma {:induction false} ParseEnumSpec(members: seq<string>, token: string)
    ensures ParseEnum(members, token).Some? <==>
      exists i :: 0 <= i < |members| && EqualsIgnoreCase(members[i], Trim(token))
    ensures ParseEnum(members, token).Some? ==>
      exists i :: 0 <= i < |members| && members[i] == ParseEnum(members, token).value
        && EqualsIgnoreCase(members[i], Trim(token))
        && forall j :: 0 <= j < i ==> !EqualsIgnoreCase(members[j], Trim(token))
    decreases |members|
  {
    if |members| > 0 {
      var tk := Trim(token);
      var rest := members[1..];
      ParseEnumSpec(rest, token);
      if EqualsIgnoreCase(members[0], tk) {
        assert ParseEnum(members, token) == Some(members[0]);
      } else {
        assert ParseEnum(members, token) == ParseEnum(rest, token);
        assert forall j :: 0 < j < |members| ==> members[j] == rest[j - 1];
        if ParseEnum(rest, token).Some? {
          var i :| 0 <= i < |rest| && rest[i] == ParseEnum(rest, token).value
            && EqualsIgnoreCase(rest[i], tk)
            && forall j :: 0 <= j < i ==> !EqualsIgnoreCase(rest[j], tk);
          assert members[i + 1] == rest[i];
        }
      }
    }
  }


  /** Enumeration coercion succeeds exactly when the (trimmed) token equals
      a member name ignoring case, and then yields the first such member
      with its declared spelling; otherwise it yields null. */
  lemma CoerceEnum(enumName: string, members: seq<string>, token: string)
    ensures Coerce(Enum(enumName, members), token).Some? <==>
      exists i :: 0 <= i < |members| && EqualsIgnoreCase(members[i], Trim(token))
    ensures Coerce(Enum(enumName, members), token).Some? ==>
      exists i :: 0 <= i < |members|
        && Coerce(Enum(enumName, members), token) == Some(EnumValue(enumName, members[i]))
        && EqualsIgnoreCase(members[i], Trim(token))
        && forall j :: 0 <= j < i ==> !EqualsIgnoreCase(members[j], Trim(token))
  {
    ParseEnumSpec(members, token);
  }

  /** Coercing to `Nullable<u>` behaves as coercing to `u` for every
      non-enumeration `u`. For an enumeration `u` it always fails:
      `Type.IsEnum` is false of `Nullable<u>`, so the token goes to
      `Convert.ChangeType`, which cannot produce an enumeration. */
  lemma CoerceNullable(u: ParamType, token: string)
    requires !u.Nullable?
    ensures !u.Enum? ==> Coerce(Nullable(u), token) == Coerce(u, token)
    ensures u.Enum? ==> Coerce(Nullable(u), token) == None
  {
  }

  /** Coercing to `String` or `Object` hands back the token unchanged, so it
      never fails; the other reference types always fail. */
  lemma CoerceReference(t: ParamType, token: string)
    requires IsClass(t)
    ensures t.Str? || t.Object? ==> Coerce(t, token) == Some(StrValue(token))
    ensures t.OtherClass? ==> Coerce(t, token) == None
  {
  }

  /** An integer coercion yields a 32-bit value, and every 32-bit value
      round-trips through its decimal text. */
  lemma CoerceInt32(n: int, token: string)
    requires Int32Min <= n <= Int32Max
    ensures Coerce(Int32, DecimalString(n)) == Some(IntValue(n))
    ensures Coerce(Int32, token).Some? ==>
      Coerce(Int32, token).value.IntValue? && Int32Min <= Coerce(Int32, token).value.i <= Int32Max
  {
    ParseDecimalString(n);
  }

  /** A Boolean coercion, plain or nullable, reads back the text
      `Boolean.ToString()` writes. */
  lemma CoerceBoolean(b: bool)
    ensures Coerce(Boolean, BooleanString(b)) == Some(BoolValue(b))
    ensures Coerce(Nullable(Boolean), BooleanString(b)) == Some(BoolValue(b))
  {
    ParseBooleanString(b);
  }

  // ---------------------------------------------------------------------
  // Arity check and binding (`InternallyExecuteCommandAsync`)

  /** The number of parameters without a default value. */
  function Required(ps: seq<Param>): (n: nat)
    ensures n <= |ps|
    decreases |ps|
  {
    if |ps| == 0 then 0
    else (if ps[0].hasDefault then 0 else 1) + Required(ps[1..])
  }

  /** What became of one attempted invocation. `ArityMismatch` carries the
      expected and actual counts the warning reports; `Aborted` the index of
      the parameter whose coercion failed; `Invoked` the bound arguments. */
  datatype Outcome =
    | ArityMismatch(expected: nat, got: nat)
    | Aborted(index: nat)
    | Invoked(arguments: seq<Option<Value>>)

  /** The argument count is acceptable: at least the required count, and at
      most the parameter count unless extra arguments are ignored. */
  predicate ArityOk(c: Command, argCount: nat) {
    !(argCount < Required(c.params) || (!c.ignoreExtraArgs && argCount > |c.params|))
  }

  /** Slot `i` of the bound array: the coerced argument if there is one,
      otherwise the default, otherwise null. */
  function SlotValue(p: Param, args: seq<string>, i: nat): Option<Value> {
    if i < |args| then Coerce(p.typ, args[i])
    else if p.hasDefault then p.defaultValue
    else None
  }

  /** Binding slot `i` ends the invocation: the argument is present, its
      coercion failed, and the parameter type is not a class. */
  predicate Aborts(p: Param, args: seq<string>, i: nat) {
    i < |args| && Coerce(p.typ, args[i]).None? && !IsClass(p.typ)
  }

  /** The first index at or after `from` whose binding aborts. */
  function FirstAbort(ps: seq<Param>, args: seq<string>, from: nat): (r: Option<nat>)
    ensures r.Some? ==> from <= r.value < |ps| && Aborts(ps[r.value], args, r.value)
    decreases |ps| - from
  {
    if from >= |ps| then None
    else if Aborts(ps[from], args, from) then Some(from)
    else FirstAbort(ps, args, from + 1)
  }

  /** The specification of one execution of a command on its arguments:
      a mismatch reports the parameter and argument counts, an abort names
      a supplied argument whose non-class parameter it cannot fill, and an
      invocation fills one slot per parameter. */
  function Execution(c: Command, args: seq<string>): (o: Outcome)
    ensures o.ArityMismatch? <==> !ArityOk(c, |args|)
    ensures o.ArityMismatch? ==> o.expected == |c.params| && o.got == |args|
    ensures o.Aborted? ==> o.index < |c.params| && o.index < |args| && Aborts(c.params[o.index], args, o.index)
    ensures o.Invoked? ==> |o.arguments| == |c.params|
  {
    if !ArityOk(c, |args|) then ArityMismatch(|c.params|, |args|)
    else
      match FirstAbort(c.params, args, 0)
      case Some(i) => Aborted(i)
      case None =>
        Invoked(seq(|c.params|, i requires 0 <= i < |c.params| => SlotValue(c.params[i], args, i)))
  }

  /** `InternallyExecuteCommandAsync`: rejects a wrong argument count, then
      fills one slot per parameter in order, returning early when a coercion
      for a non-class parameter fails; otherwise the handler is invoked with
      the filled array. */
  method InternallyExecute(c: Command, args: seq<string>) returns (o: Outcome)
    ensures o == Execution(c, args)
  {
    var required := Required(c.params);
    if |args| < required || (!c.ignoreExtraArgs && |args| > |c.params|) {
      return ArityMismatch(|c.params|, |args|);
    }
    var slots := new Option<Value>[|c.params|](_ => None);
    for i := 0 to |c.params|
      invariant FirstAbort(c.params, args, i) == FirstAbort(c.params, args, 0)
      invariant forall j :: 0 <= j < i ==> slots[j] == SlotValue(c.params[j], args, j)
      invariant forall j :: i <= j < |c.params| ==> slots[j] == None
    {
      var p := c.params[i];
      if i < |args| {
        slots[i] := Coerce(p.typ, args[i]);
        if slots[i] == None && !IsClass(p.typ) {
          return Aborted(i);
        }
      } else if p.hasDefault {
        slots[i] := p.defaultValue;
      }
    }
    o := Invoked(slots[..]);
  }

  // ---------------------------------------------------------------------
  // Properties of an execution

  lemma {:induction false} FirstAbortSpec(ps: seq<Param>, args: seq<string>, from: nat)
    ensures FirstAbort(ps, args, from).None? <==>
      forall i :: from <= i < |ps| ==> !Aborts(ps[i], args, i)
    ensures FirstAbort(ps, args, from).Some? ==>
      var k := FirstAbort(ps, args, from).value;
      && from <= k < |ps| && Aborts(ps[k], args, k)
      && forall i :: from <= i < k ==> !Aborts(ps[i], args, i)
    decreases |ps| - from
  {
    if from < |ps| {
      FirstAbortSpec(ps, args, from + 1);
    }
  }

  /** The arity check, both ways: an execution is rejected for its argument
      count exactly when there are fewer arguments than required parameters,
      or more than all parameters while extra arguments are not ignored. In
      neither case is the handler invoked. */
  lemma ArityRejection(c: Command, args: seq<string>)
    ensures Execution(c, args).ArityMismatch? <==>
      (|args| < Required(c.params) || (!c.ignoreExtraArgs && |args| > |c.params|))
    ensures |args| < Required(c.params) ==> !Execution(c, args).Invoked?
    ensures !c.ignoreExtraArgs && |args| > |c.params| ==> !Execution(c, args).Invoked?
  {
  }

  /** The handler is invoked exactly when the count is acceptable and no
      argument for a non-class parameter fails to coerce. */
  lemma InvokedIff(c: Command, args: seq<string>)
    ensures Execution(c, args).Invoked? <==>
      ArityOk(c, |args|) && forall i :: 0 <= i < |c.params| ==> !Aborts(c.params[i], args, i)
  {
    FirstAbortSpec(c.params, args, 0);
  }

  /** An aborted execution names the first parameter whose argument does not
      coerce and whose type is not a class. */
  lemma AbortedAtFirstFailure(c: Command, args: seq<string>)
    requires Execution(c, args).Aborted?
    ensures var k := Execution(c, args).index;
      && ArityOk(c, |args|)
      && k < |c.params| && k < |args|
      && Coerce(c.params[k].typ, args[k]).None? && !IsClass(c.params[k].typ)
      && forall i :: 0 <= i < k ==> !Aborts(c.params[i], args, i)
  {
    FirstAbortSpec(c.params, args, 0);
  }

  /** The bound array has one slot per parameter. Slot `i` holds the
      coercion of argument `i` when there is one, and otherwise the
      parameter's default (null when it has none). A class parameter whose
      coercion fails is bound to null and the handler still runs. */
  lemma InvokedBinding(c: Command, args: seq<string>)
    requires Execution(c, args).Invoked?
    ensures var bound := Execution(c, args).arguments;
      && |bound| == |c.params|
      && (forall i :: 0 <= i < |bound| && i < |args| ==> bound[i] == Coerce(c.params[i].typ, args[i]))
      && (forall i :: 0 <= i < |bound| && i >= |args| ==>
            bound[i] == if c.params[i].hasDefault then c.params[i].defaultValue else None)
      && (forall i :: 0 <= i < |bound| && i < |args| && Coerce(c.params[i].typ, args[i]).None? ==>
            IsClass(c.params[i].typ) && bound[i].None?)
  {
    InvokedIff(c, args);
  }

  /** With extra arguments ignored, an execution is the same as one on the
      first parameter-count arguments: the extra ones are never read. */
  lemma {:induction false} ExtraArgumentsIgnored(c: Command, args: seq<string>)
    requires c.ignoreExtraArgs && |args| > |c.params|
    ensures ArityOk(c, |args|)
    ensures Execution(c, args) == Execution(c, args[..|c.params|])
  {
    var short := args[..|c.params|];
    forall i | 0 <= i < |c.params|
      ensures Aborts(c.params[i], args, i) == Aborts(c.params[i], short, i)
      ensures SlotValue(c.params[i], args, i) == SlotValue(c.params[i], short, i)
    {
      assert short[i] == args[i];
    }
    FirstAbortSpec(c.params, args, 0);
    FirstAbortSpec(c.params, short, 0);
    if FirstAbort(c.params, args, 0).Some? {
      var k := FirstAbort(c.params, args, 0).value;
      var k' := FirstAbort(c.params, short, 0).value;
      assert !(k < k') && !(k' < k);
    }
  }

  /** Every parameter with a default comes after every parameter without
      one, as is usual in C# (a `params` array after optional parameters
      breaks it). */
  predicate DefaultsTrailing(ps: seq<Param>) {
    forall i, j :: 0 <= i < j < |ps| && ps[i].hasDefault ==> ps[j].hasDefault
  }

  lemma {:induction false} RequiredIsPrefix(ps: seq<Param>)
    requires DefaultsTrailing(ps)
    ensures forall i :: 0 <= i < |ps| ==> (ps[i].hasDefault <==> i >= Required(ps))
    decreases |ps|
  {
    if |ps| > 0 {
      assert DefaultsTrailing(ps[1..]) by {
        forall i, j | 0 <= i < j < |ps[1..]| && ps[1..][i].hasDefault ensures ps[1..][j].hasDefault {
          assert ps[1..][i] == ps[i + 1] && ps[1..][j] == ps[j + 1];
        }
      }
      RequiredIsPrefix(ps[1..]);
      if ps[0].hasDefault {
        if |ps| > 1 {
          assert ps[1..][0] == ps[1];
        }
      }
      forall i | 0 <= i < |ps| ensures ps[i].hasDefault <==> i >= Required(ps) {
        if i > 0 { assert ps[i] == ps[1..][i - 1]; }
      }
    }
  }

  /** When defaults are trailing and the handler is invoked, every slot
      without an argument belongs to a parameter with a default, and holds
      that default. */
  lemma UnfilledSlotsGetDefaults(c: Command, args: seq<string>)
    requires DefaultsTrailing(c.params)
    requires Execution(c, args).Invoked?
    ensures forall i :: |args| <= i < |c.params| ==>
      c.params[i].hasDefault && Execution(c, args).arguments[i] == c.params[i].defaultValue
  {
    RequiredIsPrefix(c.params);
  }
}
