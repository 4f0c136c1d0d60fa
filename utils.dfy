/**
 * The static helpers of com.anbillon.routine.Utils: argument guards, the
 * analysis of reflective type expressions used to resolve route
 * declarations, and the stripping of parameters from a scheme URL.
 */
module Utils {
  import opened JavaTypes

  // ---------------------------------------------------------------------------
  // Guards
  // ---------------------------------------------------------------------------

  /** checkNotNull: hands back its argument unchanged, or throws on null. */
  function CheckNotNull<T>(obj: Nullable<T>): (r: Result<T>)
    ensures r.Ok? <==> obj.NonNull?
    ensures r.Ok? ==> r.value == obj.value
    ensures r.Throws? ==> r.exception == NullPointerException
  {
    match obj
    case Null => Throws(NullPointerException)
    case NonNull(v) => Ok(v)
  }

  /**
   * immutableList: a copy of the list's contents (copying a null list throws).
   * Only the contents are modelled, not the read-only view.
   */
  function ImmutableList<T>(list: Nullable<seq<T>>): (r: Result<seq<T>>)
    ensures r.Ok? <==> list.NonNull?
    ensures r.Ok? ==> |r.value| == |list.value| && forall i :: 0 <= i < |r.value| ==> r.value[i] == list.value[i]
    ensures r.Throws? ==> r.exception == NullPointerException
  {
    match list
    case Null => Throws(NullPointerException)
    case NonNull(s) => Ok(s)
  }

  /**
   * validateRouterInterface: a route declaration must be an interface that
   * extends no other interface.
   */
  function ValidateRouterInterface(router: Class): (r: Result<()>)
    ensures r.Ok? <==> IsInterface(router) && GetInterfaces(router) == []
    ensures r.Throws? ==> r.exception == IllegalArgumentException
  {
    if !IsInterface(router) then Throws(IllegalArgumentException)
    else if |GetInterfaces(router)| > 0 then Throws(IllegalArgumentException)
    else Ok(())
  }

  // ---------------------------------------------------------------------------
  // hasUnresolvableType
  // ---------------------------------------------------------------------------

  /**
   * hasUnresolvableType: whether a type variable or wildcard occurs in the
   * type; any kind of Type other than the five reflective ones (null included)
   * is refused with an IllegalArgumentException.
   */
  function HasUnresolvableType(t: Type): (r: Result<bool>)
    ensures r.Throws? ==> r.exception == IllegalArgumentException
    decreases t, 1
  {
    match t
    case ClassType(_) => Ok(false)
    case Parameterized(_, _) => AnyArgumentUnresolvable(t, 0)
    case GenericArray(component) => HasUnresolvableType(component)
    case TypeVariable(_) => Ok(true)
    case Wildcard(_) => Ok(true)
    case NullType => Throws(IllegalArgumentException)
    case OtherType => Throws(IllegalArgumentException)
  }

  /**
   * The loop over the type arguments of a parameterized type, from argument
   * `i` on: it stops at the first argument whose check does not answer false
   * and passes that answer (true, or the exception) on.
   */
  function AnyArgumentUnresolvable(t: Type, i: nat): (r: Result<bool>)
    requires t.Parameterized? && i <= |t.typeArguments|
    ensures r == Ok(false) <==>
      forall j :: i <= j < |t.typeArguments| ==> HasUnresolvableType(t.typeArguments[j]) == Ok(false)
    ensures r != Ok(false) ==>
      exists j :: i <= j < |t.typeArguments| && r == HasUnresolvableType(t.typeArguments[j]) &&
        forall k :: i <= k < j ==> HasUnresolvableType(t.typeArguments[k]) == Ok(false)
    decreases t, 0, |t.typeArguments| - i
  {
    if i == |t.typeArguments| then Ok(false)
    else
      match HasUnresolvableType(t.typeArguments[i])
      case Ok(false) => AnyArgumentUnresolvable(t, i + 1)
      case answer => answer
  }

  /** Every node the check visits is a Class, a parameterized type or a generic array. */
  ghost predicate FullyResolved(t: Type) {
    match t
    case ClassType(_) => true
    case Parameterized(_, args) => forall a | a in args :: FullyResolved(a)
    case GenericArray(component) => FullyResolved(component)
    case _ => false
  }

  /** A type variable or a wildcard occurs among the nodes the check visits. */
  ghost predicate MentionsVariable(t: Type) {
    match t
    case TypeVariable(_) => true
    case Wildcard(_) => true
    case Parameterized(_, args) => exists a | a in args :: MentionsVariable(a)
    case GenericArray(component) => MentionsVariable(component)
    case _ => false
  }

  /** Every node the check visits is one of the five reflective kinds (none is null). */
  ghost predicate WellKinded(t: Type) {
    match t
    case NullType => false
    case OtherType => false
    case Parameterized(_, args) => forall a | a in args :: WellKinded(a)
    case GenericArray(component) => WellKinded(component)
    case _ => true
  }

  /** Fully resolved means: well kinded and free of type variables and wildcards. */
  lemma {:induction false} FullyResolvedIff(t: Type)
    ensures FullyResolved(t) <==> WellKinded(t) && !MentionsVariable(t)
  {
    match t
    case Parameterized(_, args) =>
      forall a | a in args
        ensures FullyResolved(a) <==> WellKinded(a) && !MentionsVariable(a)
      {
        FullyResolvedIff(a);
      }
    case GenericArray(component) => FullyResolvedIff(component);
    case _ =>
  }

  /** The check answers false exactly for fully resolved types. */
  lemma {:induction false} HasUnresolvableTypeFalseIff(t: Type)
    ensures HasUnresolvableType(t) == Ok(false) <==> FullyResolved(t)
  {
    match t
    case Parameterized(_, args) =>
      forall j | 0 <= j < |args|
        ensures HasUnresolvableType(args[j]) == Ok(false) <==> FullyResolved(args[j])
      {
        HasUnresolvableTypeFalseIff(args[j]);
      }
      assert (forall a | a in args :: FullyResolved(a)) <==>
             (forall j :: 0 <= j < |args| ==> FullyResolved(args[j]));
    case GenericArray(component) => HasUnresolvableTypeFalseIff(component);
    case _ =>
  }

  /**
   * On a well-kinded type the check never throws and answers whether a type
   * variable or wildcard occurs in it.
   */
  lemma {:induction false} HasUnresolvableTypeOnWellKinded(t: Type)
    requires WellKinded(t)
    ensures HasUnresolvableType(t) == Ok(MentionsVariable(t))
  {
    match t
    case Parameterized(_, args) =>
      forall j | 0 <= j < |args|
        ensures HasUnresolvableType(args[j]) == Ok(MentionsVariable(args[j]))
      {
        assert args[j] in args;
        HasUnresolvableTypeOnWellKinded(args[j]);
      }
      var r := AnyArgumentUnresolvable(t, 0);
      if r == Ok(false) {
        forall a | a in args ensures !MentionsVariable(a) {
          var j :| 0 <= j < |args| && args[j] == a;
          assert HasUnresolvableType(args[j]) == Ok(false);
        }
      } else {
        var j :| 0 <= j < |args| && r == HasUnresolvableType(args[j]);
        assert args[j] in args;
      }
    case GenericArray(component) => HasUnresolvableTypeOnWellKinded(component);
    case _ =>
  }

  /**
   * An answer of true is always justified by a type variable or wildcard,
   * even when an argument after it would have made the check throw.
   */
  lemma {:induction false} HasUnresolvableTypeTrueSound(t: Type)
    ensures HasUnresolvableType(t) == Ok(true) ==> MentionsVariable(t)
  {
    match t
    case Parameterized(_, args) =>
      var r := AnyArgumentUnresolvable(t, 0);
      if r == Ok(true) {
        var j :| 0 <= j < |args| && r == HasUnresolvableType(args[j]);
        HasUnresolvableTypeTrueSound(args[j]);
        assert args[j] in args;
      }
    case GenericArray(component) => HasUnresolvableTypeTrueSound(component);
    case _ =>
  }

  /** The only exception the check throws is IllegalArgumentException, and only on an ill-kinded type. */
  lemma {:induction false} HasUnresolvableTypeThrows(t: Type)
    ensures HasUnresolvableType(t).Throws? ==>
      HasUnresolvableType(t).exception == IllegalArgumentException && !WellKinded(t)
  {
    if WellKinded(t) {
      HasUnresolvableTypeOnWellKinded(t);
    }
    match t
    case Parameterized(_, args) =>
      var r := AnyArgumentUnresolvable(t, 0);
      if r.Throws? {
        var j :| 0 <= j < |args| && r == HasUnresolvableType(args[j]);
        HasUnresolvableTypeThrows(args[j]);
      }
    case GenericArray(component) => HasUnresolvableTypeThrows(component);
    case _ =>
  }

  /** The arguments are checked in order: a variable before a null argument hides it. */
  lemma HasUnresolvableTypeArgumentOrder(list: Class)
    ensures HasUnresolvableType(Parameterized(ClassType(list), [TypeVariable("T"), NullType])) == Ok(true)
    ensures HasUnresolvableType(Parameterized(ClassType(list), [NullType, TypeVariable("T")])) ==
      Throws(IllegalArgumentException)
  {
  }

  // ---------------------------------------------------------------------------
  // getRawType
  // ---------------------------------------------------------------------------

  /**
   * getRawType: the Class a type expression erases to. A generic array
   * becomes the array class of its component's raw type, a type variable
   * becomes Object and a wildcard the raw type of its first upper bound.
   */
  function GetRawType(t: Type): (r: Result<Class>)
    ensures r.Ok? ==> Dimensions(r.value) >= ArrayDepth(t)
    ensures r == Throws(ArrayIndexOutOfBoundsException) <==> Head(t) == Wildcard([])
  {
    match t
    case NullType => Throws(NullPointerException)
    case ClassType(c) => Ok(c)
    case Parameterized(raw, _) =>
      if raw.ClassType? then Ok(raw.cls) else Throws(IllegalArgumentException)
    case GenericArray(component) =>
      (match GetRawType(component)
       case Ok(c) => Ok(ArrayClass(c))
       case Throws(e) => Throws(e))
    case TypeVariable(_) => Ok(Object)
    case Wildcard(bounds) =>
      if |bounds| == 0 then Throws(ArrayIndexOutOfBoundsException) else GetRawType(bounds[0])
    case OtherType => Throws(IllegalArgumentException)
  }

  /** `c` wrapped in `n` array dimensions. */
  function ArrayOf(n: nat, c: Class): Class {
    if n == 0 then c else ArrayClass(ArrayOf(n - 1, c))
  }

  /** The node where getRawType's recursion stops: it follows array components and first upper bounds. */
  function Head(t: Type): Type {
    match t
    case GenericArray(component) => Head(component)
    case Wildcard(bounds) => if |bounds| == 0 then t else Head(bounds[0])
    case _ => t
  }

  /** The number of generic-array steps on the way from `t` to its head. */
  function ArrayDepth(t: Type): nat {
    match t
    case GenericArray(component) => ArrayDepth(component) + 1
    case Wildcard(bounds) => if |bounds| == 0 then 0 else ArrayDepth(bounds[0])
    case _ => 0
  }

  /**
   * Closed form of getRawType: the head is neither a generic array nor a
   * wildcard with a bound, so its raw type is found without recursion; the
   * raw type of `t` is the head's class with one array dimension per
   * generic-array step in between, or else the head's exception.
   */
  lemma {:induction false} GetRawTypeClosedForm(t: Type)
    ensures !Head(t).GenericArray?
    ensures Head(t).Wildcard? ==> Head(t).upperBounds == []
    ensures GetRawType(t) ==
      match GetRawType(Head(t))
      case Ok(c) => Ok(ArrayOf(ArrayDepth(t), c))
      case Throws(e) => Throws(e)
  {
    match t
    case GenericArray(component) => GetRawTypeClosedForm(component);
    case Wildcard(bounds) =>
      if |bounds| > 0 {
        GetRawTypeClosedForm(bounds[0]);
      }
    case _ =>
  }

  /** A raw type is stable: taking the raw type of a raw type changes nothing. */
  lemma GetRawTypeOfClass(t: Type)
    ensures GetRawType(t).Ok? ==> GetRawType(ClassType(GetRawType(t).value)) == GetRawType(t)
  {
  }

  // ---------------------------------------------------------------------------
  // getParameterUpperBound
  // ---------------------------------------------------------------------------

  /**
   * getParameterUpperBound: the type argument at `index`, or the first upper
   * bound of a wildcard argument. The argument is a ParameterizedType or null.
   */
  function GetParameterUpperBound(index: int, p: Type): (r: Result<Type>)
    requires p.Parameterized? || p.NullType?
    ensures r == Throws(NullPointerException) <==> p.NullType?
    ensures p.Parameterized? ==>
      (r == Throws(IllegalArgumentException) <==> index < 0 || index >= |p.typeArguments|)
    ensures p.Parameterized? ==>
      (r == Throws(ArrayIndexOutOfBoundsException) <==>
        0 <= index < |p.typeArguments| && p.typeArguments[index] == Wildcard([]))
    ensures r.Ok? ==>
      && p.Parameterized? && 0 <= index < |p.typeArguments|
      && var arg := p.typeArguments[index];
         if arg.Wildcard? then |arg.upperBounds| > 0 && r.value == arg.upperBounds[0] else r.value == arg
  {
    match p
    case Parameterized(_, types) =>
      if index < 0 || index >= |types| then Throws(IllegalArgumentException)
      else
        var paramType := types[index];
        if paramType.Wildcard? then
          if |paramType.upperBounds| == 0 then Throws(ArrayIndexOutOfBoundsException)
          else Ok(paramType.upperBounds[0])
        else Ok(paramType)
    case _ => Throws(NullPointerException)
  }

  /** Replacing a wildcard argument by its upper bound does not change the argument's raw type. */
  lemma UpperBoundKeepsRawType(index: int, p: Type)
    requires p.Parameterized?
    ensures GetParameterUpperBound(index, p).Ok? ==>
      GetRawType(GetParameterUpperBound(index, p).value) == GetRawType(p.typeArguments[index])
  {
  }

  // ---------------------------------------------------------------------------
  // isSerializableType and getExtraRawType
  // ---------------------------------------------------------------------------

  /**
   * isSerializableType: the class is Serializable, Serializable[], Parcelable
   * or Parcelable[], that is, one of the two marker interfaces or a
   * one-dimensional array of one.
   */
  function IsSerializableType(c: Class): (b: bool)
    ensures b <==> (ElementClass(c) == Serializable || ElementClass(c) == Parcelable) && Dimensions(c) <= 1
  {
    c == Serializable || c == ArrayClass(Serializable) || c == Parcelable || c == ArrayClass(Parcelable)
  }

  /** The class an array class ultimately holds. */
  function ElementClass(c: Class): Class {
    match c
    case ClassDecl(_, _, _) => c
    case ArrayClass(component) => ElementClass(component)
  }

  /** The number of array dimensions of a class. */
  function Dimensions(c: Class): nat {
    match c
    case ClassDecl(_, _, _) => 0
    case ArrayClass(component) => Dimensions(component) + 1
  }

  /**
   * The loop over a class's interfaces: the first one, in declaration order,
   * that is a serializable type, or null when there is none.
   */
  function FirstSerializable(interfaces: seq<Class>): (r: Nullable<Class>)
    ensures r.Null? <==> forall i :: 0 <= i < |interfaces| ==> !IsSerializableType(interfaces[i])
    ensures r.NonNull? ==>
      exists i :: 0 <= i < |interfaces| && interfaces[i] == r.value && IsSerializableType(r.value) &&
        forall k :: 0 <= k < i ==> !IsSerializableType(interfaces[k])
  {
    if |interfaces| == 0 then Null
    else if IsSerializableType(interfaces[0]) then NonNull(interfaces[0])
    else
      var rest := FirstSerializable(interfaces[1..]);
      assert forall i :: 1 <= i < |interfaces| ==> interfaces[i] == interfaces[1..][i - 1];
      rest
  }

  /**
   * getExtraRawType: for a Class, its first directly implemented serializable
   * interface, or the class itself; for any other type, its raw type.
   */
  function GetExtraRawType(t: Type): (r: Result<Class>)
    ensures !t.ClassType? ==> r == GetRawType(t)
    ensures t.ClassType? ==> r.Ok? && (r.value == t.cls || IsSerializableType(r.value))
    ensures t.ClassType? ==>
      (r.value == t.cls <==> forall i :: 0 <= i < |GetInterfaces(t.cls)| ==> !IsSerializableType(GetInterfaces(t.cls)[i]))
    ensures t.ClassType? && r.value != t.cls ==>
      exists i :: 0 <= i < |GetInterfaces(t.cls)| && GetInterfaces(t.cls)[i] == r.value &&
        forall k :: 0 <= k < i ==> !IsSerializableType(GetInterfaces(t.cls)[k])
    ensures t.ClassType? && (exists i :: 0 <= i < |GetInterfaces(t.cls)| && IsSerializableType(GetInterfaces(t.cls)[i])) ==>
      IsSerializableType(r.value)
  {
    match GetRawType(t)
    case Throws(e) => Throws(e)
    case Ok(rawType) =>
      if !t.ClassType? then Ok(rawType)
      else
        var interfaces := GetInterfaces(t.cls);
        if |interfaces| != 0 then
          match FirstSerializable(interfaces)
          case NonNull(c) => Ok(c)
          case Null => Ok(rawType)
        else Ok(rawType)
  }

  /** Every array class implements Serializable, so its extra raw type is Serializable. */
  lemma ExtraRawTypeOfArrayClass(component: Class)
    ensures GetExtraRawType(ClassType(ArrayClass(component))) == Ok(Serializable)
  {
    var interfaces := GetInterfaces(ArrayClass(component));
    assert interfaces == [Cloneable, Serializable];
    assert !IsSerializableType(Cloneable);
    assert interfaces[1..] == [Serializable];
    assert FirstSerializable(interfaces[1..]) == NonNull(Serializable);
    assert FirstSerializable(interfaces) == NonNull(Serializable);
  }

  // ---------------------------------------------------------------------------
  // resolveSchemeUrl
  // ---------------------------------------------------------------------------

  /** String.lastIndexOf for one character: its last position, or -1 when it does not occur. */
  function LastIndexOf(s: string, c: char): (r: int)
    ensures -1 <= r < |s|
    ensures r == -1 <==> c !in s
    ensures 0 <= r ==> s[r] == c && c !in s[r + 1..]
  {
    if |s| == 0 then -1
    else if s[|s| - 1] == c then |s| - 1
    else
      var r := LastIndexOf(s[..|s| - 1], c);
      assert s == s[..|s| - 1] + [s[|s| - 1]];
      assert 0 <= r ==> s[r + 1..] == s[..|s| - 1][r + 1..] + [s[|s| - 1]];
      r
  }

  /**
   * resolveSchemeUrl: cuts the URL before its last '?', unless that '?' is
   * its first character; a null URL throws.
   */
  function ResolveSchemeUrl(schemeUrl: Nullable<string>): (r: Result<string>)
    ensures r.Throws? <==> schemeUrl.Null?
    ensures r.Throws? ==> r.exception == NullPointerException
    ensures r.Ok? ==> r.value <= schemeUrl.value
  {
    match CheckNotNull(schemeUrl)
    case Throws(e) => Throws(e)
    case Ok(s) =>
      var index := LastIndexOf(s, '?');
      Ok(if index > 0 then s[..index] else s)
  }

  /** `i` is the position of the last '?' of `s`. */
  ghost predicate IsLastQuestionMark(s: string, i: int) {
    0 <= i < |s| && s[i] == '?' && '?' !in s[i + 1..]
  }

  /**
   * The cut rule: the URL is cut exactly at its last '?' when that lies past
   * the first character, and is kept whole otherwise.
   */
  lemma ResolveSchemeUrlCutRule(s: string, i: int)
    requires IsLastQuestionMark(s, i)
    ensures i > 0 ==> ResolveSchemeUrl(NonNull(s)) == Ok(s[..i])
    ensures i == 0 ==> ResolveSchemeUrl(NonNull(s)) == Ok(s)
  {
  }

  /** Without any '?' the URL comes back unchanged. */
  lemma ResolveSchemeUrlNoQuery(s: string)
    requires '?' !in s
    ensures ResolveSchemeUrl(NonNull(s)) == Ok(s)
  {
  }

  /**
   * What is cut off starts with '?' and holds no other '?'; what remains is
   * not empty.
   */
  lemma ResolveSchemeUrlRemovedSuffix(s: string)
    ensures var r := ResolveSchemeUrl(NonNull(s)).value;
      |r| < |s| ==> 0 < |r| && s[|r|] == '?' && '?' !in s[|r| + 1..]
  {
  }

  /**
   * A second application changes nothing exactly when the first result has
   * no '?' past its first character.
   */
  lemma ResolveSchemeUrlTwice(s: string)
    ensures var r := ResolveSchemeUrl(NonNull(s)).value;
      ResolveSchemeUrl(NonNull(r)) == Ok(r) <==> forall i :: 0 < i < |r| ==> r[i] != '?'
  {
  }

  /** The stripping is not idempotent: earlier '?' characters survive a first pass. */
  lemma ResolveSchemeUrlNotIdempotent()
    ensures ResolveSchemeUrl(NonNull("a?b?c")) == Ok("a?b")
    ensures ResolveSchemeUrl(NonNull("a?b")) == Ok("a")
  {
    var s := "a?b?c";
    assert s[4..] == "c";
    ResolveSchemeUrlCutRule(s, 3);
    assert s[..3] == "a?b";
    var r := "a?b";
    assert r[2..] == "b";
    ResolveSchemeUrlCutRule(r, 1);
    assert r[..1] == "a";
  }
}
