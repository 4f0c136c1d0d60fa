# Android-Routine: the `Utils` helpers, modelled in Dafny

Routine is a navigation framework for Android: a route is declared as a Java
interface whose methods describe screens, or as a scheme URL such as
`app://profile?id=1`. The static class `com.anbillon.routine.Utils` holds the
helpers the framework runs before it routes anything:

- argument guards: `checkNotNull`, `immutableList` and `validateRouterInterface`
  (a route declaration must be an interface that extends no other interface);
- analysis of the reflective type of a route method's parameters and return
  value: `hasUnresolvableType`, `getRawType`, `getParameterUpperBound`,
  `isSerializableType` and `getExtraRawType`;
- `resolveSchemeUrl`, which cuts the parameters off a scheme URL.

The project has two modules.

- `JavaTypes` (`java_types.dfy`) replaces Java reflection with values.
  - A `Class` is either an ordinary class or interface or an array class. An
    ordinary class has a name, its directly implemented interfaces in
    declaration order, and an interface flag.
  - `GetInterfaces` gives an array class the interfaces Cloneable and
    Serializable, as section 10.8 of the Java Language Specification says.
  - A `Type` is null, a Class, a parameterized type, a generic array type, a
    type variable, a wildcard with its upper bounds, or some other
    implementation of `Type`.
  - A thrown exception is a `Result.Throws` carrying the exception's kind. A
    nullable reference is a `Nullable`.
- `Utils` (`utils.dfy`) holds one function per helper. The two early-return
  `for` loops become first-match recursive functions: `AnyArgumentUnresolvable`
  and `FirstSerializable`. Java's `String.lastIndexOf` becomes `LastIndexOf`.
  The lemmas state what the helpers mean.

All of `Utils` is pure: the Java class has no fields and no instances. The
model therefore uses functions and lemmas only.

`resolveSchemeUrl` cuts at the LAST `'?'`, not at the first as the query rule
of section 3.4 of RFC 3986 would. The model follows the code, and
`ResolveSchemeUrlNotIdempotent` shows the consequence: `a?b?c` becomes `a?b`,
which still holds a `'?'`.

## Model

| member | source | states |
|---|---|---|
| `Utils.CheckNotNull` | routine/src/main/java/com/anbillon/routine/Utils.java:48-53 | A non-null argument comes back unchanged; null throws a NullPointerException. |
| `Utils.ImmutableList` | routine/src/main/java/com/anbillon/routine/Utils.java:58-60 | The copy has the same length and the same element at every index; copying a null list throws a NullPointerException. |
| `Utils.ValidateRouterInterface` | routine/src/main/java/com/anbillon/routine/Utils.java:68-81 | Validation passes iff the class is an interface with no super-interface; otherwise it throws an IllegalArgumentException. |
| `Utils.HasUnresolvableType` | routine/src/main/java/com/anbillon/routine/Utils.java:89-117 | The only exception the check throws, for any type, is IllegalArgumentException. What its answers mean is stated by the lemmas below. |
| `Utils.AnyArgumentUnresolvable` | routine/src/main/java/com/anbillon/routine/Utils.java:93-101 | The loop over type arguments answers false iff every argument answers false. Otherwise its answer, true or an exception, is that of the first argument that did not answer false. |
| `Utils.HasUnresolvableTypeFalseIff` | routine/src/main/java/com/anbillon/routine/Utils.java:89-117 | hasUnresolvableType answers false iff every node it visits is a Class, a parameterized type or a generic array. With `FullyResolvedIff`, this means no type variable, no wildcard and no null occur among those nodes. |
| `Utils.FullyResolvedIff` | routine/src/main/java/com/anbillon/routine/Utils.java:89-117 | A type tree holds only Classes, parameterized types and generic arrays iff it has only the five reflective kinds and no type variable or wildcard. |
| `Utils.HasUnresolvableTypeOnWellKinded` | routine/src/main/java/com/anbillon/routine/Utils.java:89-110 | On a tree with only the five reflective kinds, the check never throws. It answers true iff a type variable or wildcard occurs in the tree: false for a Class, true for a variable or wildcard, the component's answer for a generic array, and "some argument" for a parameterized type. |
| `Utils.HasUnresolvableTypeTrueSound` | routine/src/main/java/com/anbillon/routine/Utils.java:93-110 | An answer of true always means a type variable or wildcard occurs in the tree. |
| `Utils.HasUnresolvableTypeThrows` | routine/src/main/java/com/anbillon/routine/Utils.java:111-116 | The check throws only an IllegalArgumentException, and only when null or a foreign kind of Type is among the nodes it visits. |
| `Utils.HasUnresolvableTypeArgumentOrder` | routine/src/main/java/com/anbillon/routine/Utils.java:95-99 | Arguments are visited in order with an early return. A type variable before a null argument gives true; the reverse order throws. |
| `Utils.GetRawType` | routine/src/main/java/com/anbillon/routine/Utils.java:144-186 | The raw type has at least one array dimension per generic-array step on the way to the head node. ArrayIndexOutOfBoundsException is thrown exactly when that head is a wildcard without upper bounds. |
| `Utils.GetRawTypeClosedForm` | routine/src/main/java/com/anbillon/routine/Utils.java:144-186 | getRawType follows generic-array components and first wildcard bounds down to a head node, which is neither a generic array nor a wildcard with a bound. The result is the head's raw type with one array dimension added per generic-array step, or the head's exception. The head's raw type is the Class itself, the raw Class of a parameterized type, or Object for a type variable. Null gives NullPointerException; a non-Class raw type or a foreign kind gives IllegalArgumentException; a wildcard without bounds gives ArrayIndexOutOfBoundsException. |
| `Utils.GetRawTypeOfClass` | routine/src/main/java/com/anbillon/routine/Utils.java:147-150 | The raw type of a raw type is itself. |
| `Utils.GetParameterUpperBound` | routine/src/main/java/com/anbillon/routine/Utils.java:188-199 | The call throws NullPointerException exactly for a null type, IllegalArgumentException exactly when `index < 0 || index >= args.length`, and ArrayIndexOutOfBoundsException exactly for a wildcard argument without bounds. In every other case it succeeds and returns the argument at `index`, or for a wildcard argument that wildcard's first upper bound. |
| `Utils.UpperBoundKeepsRawType` | routine/src/main/java/com/anbillon/routine/Utils.java:188-199 | Replacing a wildcard argument by its upper bound leaves the argument's raw type unchanged. |
| `Utils.IsSerializableType` | routine/src/main/java/com/anbillon/routine/Utils.java:119-124 | The serializable types are exactly Serializable, Parcelable and their one-dimensional arrays. |
| `Utils.FirstSerializable` | routine/src/main/java/com/anbillon/routine/Utils.java:132-139 | The search returns the first interface, in declaration order, that is a serializable type. It returns null iff there is none. |
| `Utils.GetExtraRawType` | routine/src/main/java/com/anbillon/routine/Utils.java:126-142 | For a type that is not a Class, the result equals getRawType. For a Class, the call succeeds. The result is the class itself iff none of its direct interfaces is a serializable type; otherwise it is the first serializable one in declaration order. |
| `Utils.ExtraRawTypeOfArrayClass` | routine/src/main/java/com/anbillon/routine/Utils.java:132-138 | Every array class implements Serializable, so its extra raw type is Serializable. |
| `Utils.LastIndexOf` | routine/src/main/java/com/anbillon/routine/Utils.java:220 | lastIndexOf returns -1 iff the character is absent. Otherwise it returns a position holding the character with no occurrence after it. |
| `Utils.ResolveSchemeUrl` | routine/src/main/java/com/anbillon/routine/Utils.java:219-222 | A null URL throws a NullPointerException. Otherwise the result is a prefix of the URL. |
| `Utils.ResolveSchemeUrlCutRule` | routine/src/main/java/com/anbillon/routine/Utils.java:219-222 | If the last `'?'` is at index `i > 0`, the result is the first `i` characters. If it is at index 0, the URL is unchanged. |
| `Utils.ResolveSchemeUrlNoQuery` | routine/src/main/java/com/anbillon/routine/Utils.java:220-221 | A URL without `'?'` is returned unchanged. |
| `Utils.ResolveSchemeUrlRemovedSuffix` | routine/src/main/java/com/anbillon/routine/Utils.java:220-221 | When characters are removed, the removed part starts with `'?'` and holds no other `'?'`, and the kept part is not empty. |
| `Utils.ResolveSchemeUrlTwice` | routine/src/main/java/com/anbillon/routine/Utils.java:220-221 | A second application changes nothing iff the first result has no `'?'` after its first character. |
| `Utils.ResolveSchemeUrlNotIdempotent` | routine/src/main/java/com/anbillon/routine/Utils.java:220-221 | `a?b?c` resolves to `a?b`, and `a?b` resolves to `a`. |

## Left out

- `resolveActivityInfo` (Utils.java:209-211) is not modelled. It is one call into Android's `PackageManager`.
- Exception messages are not modelled. Only the kind of exception is.
- `ImmutableList`: the read-only view of `Collections.unmodifiableList` is not modelled. Only the copy's contents are.
- `GetRawTypeClosedForm`: `Array.newInstance` refuses a `void` component and more than 255 dimensions. The model gives every generic array whose component has a raw type an array class.
- Class identity is equality of `Class` values. The JVM identifies a class by its name and class loader.
- A null `Class` argument is not modelled for `validateRouterInterface` (it would throw a NullPointerException) or for `isSerializableType` (it would answer false). Callers pass non-null classes.
- `GetParameterUpperBound` requires a parameterized type or null. Java's static type `ParameterizedType` admits nothing else.
- Strings are sequences of `char`. Java's UTF-16 code units and surrogate pairs are not distinguished.
- The sample application (`SampleApplication.java`) and its identity interceptor (`IdentityInterceptor.java`) are not modelled. They are Android wiring, and the interceptor depends on a random number.
