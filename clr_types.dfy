/** .NET types as reflection reports them, and the "pretty" type name that
    IpDataBaseOnPremise puts into its cast-failure message
    (AppendPrettyTypeName / GetPrettyTypeName). */
module ClrTypes {
  import opened Common

  /** A constructed .NET type: namespace, `Type.Name` (a generic type's name
      carries a back-tick and its arity, as in "List`1") and the generic type
      arguments (empty for a non-generic type). */
  datatype ClrType = ClrType(ns: string, name: string, args: seq<ClrType>)

  /** `Type.IsGenericType` for a constructed type. */
  predicate IsGenericType(t: ClrType) {
    |t.args| > 0
  }

  const ObjectType := ClrType("System", "Object", [])
  const StringType := ClrType("System", "String", [])
  const DoubleType := ClrType("System", "Double", [])
  const SingleType := ClrType("System", "Single", [])
  const Int32Type := ClrType("System", "Int32", [])
  const BooleanType := ClrType("System", "Boolean", [])
  const IpAddressType := ClrType("System.Net", "IPAddress", [])

  function ReadOnlyListOf(t: ClrType): ClrType {
    ClrType("System.Collections.Generic", "IReadOnlyList`1", [t])
  }

  function WeightedValueOf(t: ClrType): ClrType {
    ClrType("FiftyOne.Pipeline.Core.Data.Types", "IWeightedValue`1", [t])
  }

  /** `IReadOnlyList<IWeightedValue<t>>`. */
  function WeightedListOf(t: ClrType): ClrType {
    ReadOnlyListOf(WeightedValueOf(t))
  }

  /** `AspectPropertyValue<t>`, the class every getter instantiates. */
  function AspectPropertyValueOf(t: ClrType): ClrType {
    ClrType("FiftyOne.Pipeline.Engines.Data", "AspectPropertyValue`1", [t])
  }

  /** `string.IndexOf(char)`: the first position of `c` in `s`, or -1. */
  function IndexOf(s: string, c: char): (r: int)
    ensures -1 <= r < |s|
    ensures r == -1 <==> c !in s
    ensures r >= 0 ==> s[r] == c && c !in s[..r]
  {
    if s == [] then -1
    else if s[0] == c then 0
    else
      var k := IndexOf(s[1..], c);
      if k < 0 then -1
      else
        assert s[..k + 1] == [s[0]] + s[1..][..k];
        k + 1
  }

  /** The pretty name of `t`: `Type.Name` for a non-generic type; for a generic
      one the name up to the back-tick, then "<", the arguments' pretty names
      joined by ", ", then ">". A generic type whose name holds no back-tick
      (a type nested in a generic class) makes `Substring(0, -1)` throw. */
  function PrettyTypeName(t: ClrType): Result<string, Error>
    decreases t, 1, 0
  {
    if !IsGenericType(t) then Success(t.name)
    else
      var k := IndexOf(t.name, '`');
      if k < 0 then Failure(ArgumentOutOfRangeException("length"))
      else
        match PrettyArgs(t, |t.args|)
        case Failure(e) => Failure(e)
        case Success(inner) => Success(t.name[..k] + "<" + inner + ">")
  }

  /** The pretty names of the first `n` generic arguments of `t`, joined by
      ", ", appended left to right as the formatting loop does. */
  function PrettyArgs(t: ClrType, n: nat): Result<string, Error>
    requires n <= |t.args|
    decreases t, 0, n
  {
    if n == 0 then Success("")
    else
      match PrettyArgs(t, n - 1)
      case Failure(e) => Failure(e)
      case Success(prefix) =>
        assert t.args[n - 1] in t.args;
        match PrettyTypeName(t.args[n - 1])
        case Failure(e) => Failure(e)
        case Success(last) => Success(prefix + (if n > 1 then ", " else "") + last)
  }

  /** Every generic type in `t`, at any depth, has a back-tick in its name. */
  predicate WellNamed(t: ClrType) {
    (IsGenericType(t) ==> '`' in t.name) &&
    forall i | 0 <= i < |t.args| :: WellNamed(t.args[i])
  }

  /** Formatting succeeds exactly when every generic type in `t` is named with
      a back-tick. */
  lemma {:induction false} PrettyTypeNameSucceedsIff(t: ClrType)
    ensures PrettyTypeName(t).Success? <==> WellNamed(t)
    decreases t, 1, 0
  {
    if IsGenericType(t) {
      PrettyArgsSucceedIff(t, |t.args|);
    }
  }

  lemma {:induction false} PrettyArgsSucceedIff(t: ClrType, n: nat)
    requires n <= |t.args|
    ensures PrettyArgs(t, n).Success? <==> forall i | 0 <= i < n :: WellNamed(t.args[i])
    decreases t, 0, n
  {
    if n > 0 {
      PrettyArgsSucceedIff(t, n - 1);
      assert t.args[n - 1] in t.args;
      PrettyTypeNameSucceedsIff(t.args[n - 1]);
    }
  }

  /** The only exception formatting throws is the `Substring` one. */
  lemma {:induction false} PrettyTypeNameFailure(t: ClrType)
    ensures PrettyTypeName(t).Failure? ==> PrettyTypeName(t).error == ArgumentOutOfRangeException("length")
    decreases t, 1, 0
  {
    if IsGenericType(t) && IndexOf(t.name, '`') >= 0 {
      PrettyArgsFailure(t, |t.args|);
    }
  }

  lemma {:induction false} PrettyArgsFailure(t: ClrType, n: nat)
    requires n <= |t.args|
    ensures PrettyArgs(t, n).Failure? ==> PrettyArgs(t, n).error == ArgumentOutOfRangeException("length")
    decreases t, 0, n
  {
    if n > 0 {
      PrettyArgsFailure(t, n - 1);
      assert t.args[n - 1] in t.args;
      PrettyTypeNameFailure(t.args[n - 1]);
    }
  }

  /** Occurrences of `c` in `s`. */
  function Occurrences(s: string, c: char): nat {
    if s == [] then 0 else (if s[0] == c then 1 else 0) + Occurrences(s[1..], c)
  }

  lemma {:induction false} OccurrencesAppend(a: string, b: string, c: char)
    ensures Occurrences(a + b, c) == Occurrences(a, c) + Occurrences(b, c)
  {
    if a == [] {
      assert a + b == b;
    } else {
      assert (a + b)[1..] == a[1..] + b;
      OccurrencesAppend(a[1..], b, c);
    }
  }

  lemma {:induction false} OccurrencesAbsent(s: string, c: char)
    requires c !in s
    ensures Occurrences(s, c) == 0
  {
    if s != [] {
      OccurrencesAbsent(s[1..], c);
    }
  }

  /** No type name in `t` contains an angle bracket. */
  predicate NoBracketsInNames(t: ClrType) {
    '<' !in t.name && '>' !in t.name &&
    forall i | 0 <= i < |t.args| :: NoBracketsInNames(t.args[i])
  }

  /** The number of generic types in `t`, at any depth. */
  function GenericCount(t: ClrType): nat
    decreases t, 1, 0
  {
    (if IsGenericType(t) then 1 else 0) + GenericCountArgs(t, |t.args|)
  }

  function GenericCountArgs(t: ClrType, n: nat): nat
    requires n <= |t.args|
    decreases t, 0, n
  {
    if n == 0 then 0
    else
      assert t.args[n - 1] in t.args;
      GenericCountArgs(t, n - 1) + GenericCount(t.args[n - 1])
  }

  /** The pretty name opens one "<" and closes one ">" per generic type, so its
      brackets balance, when no type name has brackets of its own. */
  lemma {:induction false} PrettyTypeNameBalanced(t: ClrType)
    requires NoBracketsInNames(t)
    ensures PrettyTypeName(t).Success? ==>
      Occurrences(PrettyTypeName(t).value, '<') == GenericCount(t) &&
      Occurrences(PrettyTypeName(t).value, '>') == GenericCount(t)
    decreases t, 1, 0
  {
    if PrettyTypeName(t).Success? {
      if !IsGenericType(t) {
        OccurrencesAbsent(t.name, '<');
        OccurrencesAbsent(t.name, '>');
      } else {
        var k := IndexOf(t.name, '`');
        var head := t.name[..k];
        var inner := PrettyArgs(t, |t.args|).value;
        assert '<' !in head && '>' !in head by {
          assert forall j | 0 <= j < |head| :: head[j] == t.name[j];
        }
        PrettyArgsBalanced(t, |t.args|);
        OccurrencesAbsent(head, '<');
        OccurrencesAbsent(head, '>');
        OccurrencesAppend(head, "<", '<');
        OccurrencesAppend(head, "<", '>');
        OccurrencesAppend(head + "<", inner, '<');
        OccurrencesAppend(head + "<", inner, '>');
        OccurrencesAppend(head + "<" + inner, ">", '<');
        OccurrencesAppend(head + "<" + inner, ">", '>');
      }
    }
  }

  lemma {:induction false} PrettyArgsBalanced(t: ClrType, n: nat)
    requires n <= |t.args|
    requires forall i | 0 <= i < |t.args| :: NoBracketsInNames(t.args[i])
    ensures PrettyArgs(t, n).Success? ==>
      Occurrences(PrettyArgs(t, n).value, '<') == GenericCountArgs(t, n) &&
      Occurrences(PrettyArgs(t, n).value, '>') == GenericCountArgs(t, n)
    decreases t, 0, n
  {
    if n > 0 && PrettyArgs(t, n).Success? {
      PrettyArgsBalanced(t, n - 1);
      assert t.args[n - 1] in t.args;
      PrettyTypeNameBalanced(t.args[n - 1]);
      var prefix := PrettyArgs(t, n - 1).value;
      var sep: string := if n > 1 then ", " else "";
      var last := PrettyTypeName(t.args[n - 1]).value;
      OccurrencesAbsent(sep, '<');
      OccurrencesAbsent(sep, '>');
      OccurrencesAppend(prefix, sep, '<');
      OccurrencesAppend(prefix, sep, '>');
      OccurrencesAppend(prefix + sep, last, '<');
      OccurrencesAppend(prefix + sep, last, '>');
    }
  }
  /** `string.Join(sep, parts)`. */
  function Join(parts: seq<string>, sep: string): string {
    if |parts| == 0 then ""
    else if |parts| == 1 then parts[0]
    else parts[0] + sep + Join(parts[1..], sep)
  }

  lemma {:induction false} JoinSnoc(parts: seq<string>, x: string, sep: string)
    ensures Join(parts + [x], sep) == if parts == [] then x else Join(parts, sep) + sep + x
  {
    if |parts| == 1 {
      assert (parts + [x])[1..] == [x];
    } else if |parts| > 1 {
      assert (parts + [x])[1..] == parts[1..] + [x];
      JoinSnoc(parts[1..], x, sep);
    }
  }

  /** The pretty name of `t`, or "" where formatting throws. */
  function PrettyOrEmpty(t: ClrType): string {
    match PrettyTypeName(t)
    case Success(s) => s
    case Failure(_) => ""
  }

  /** The pretty names of the first `n` generic arguments of `t`. */
  function ArgNames(t: ClrType, n: nat): (r: seq<string>)
    requires n <= |t.args|
    ensures |r| == n
  {
    seq(n, i requires 0 <= i < n => PrettyOrEmpty(t.args[i]))
  }

  lemma {:induction false} PrettyArgsJoin(t: ClrType, n: nat)
    requires n <= |t.args|
    requires forall i | 0 <= i < n :: WellNamed(t.args[i])
    ensures PrettyArgs(t, n) == Success(Join(ArgNames(t, n), ", "))
  {
    if n > 0 {
      PrettyArgsJoin(t, n - 1);
      PrettyTypeNameSucceedsIff(t.args[n - 1]);
      assert t.args[n - 1] in t.args;
      assert PrettyTypeName(t.args[n - 1]) == Success(PrettyOrEmpty(t.args[n - 1]));
      assert ArgNames(t, n - 1) == [] <==> n == 1;
      assert ArgNames(t, n) == ArgNames(t, n - 1) + [PrettyOrEmpty(t.args[n - 1])];
      JoinSnoc(ArgNames(t, n - 1), PrettyOrEmpty(t.args[n - 1]), ", ");
      var prefix := Join(ArgNames(t, n - 1), ", ");
      var last := PrettyOrEmpty(t.args[n - 1]);
      assert PrettyArgs(t, n) == Success(prefix + (if n > 1 then ", " else "") + last);
      if n == 1 {
        assert prefix == "";
        assert prefix + "" + last == last;
      }
    }
  }

  /** The pretty name of a well-named generic type is its name up to the
      back-tick, "<", its arguments' pretty names joined by ", ", and ">". */
  lemma PrettyTypeNameGeneric(t: ClrType)
    requires WellNamed(t) && IsGenericType(t)
    ensures PrettyTypeName(t) ==
      Success(t.name[..IndexOf(t.name, '`')] + "<" + Join(ArgNames(t, |t.args|), ", ") + ">")
  {
    PrettyArgsJoin(t, |t.args|);
  }
}
