/**
 * An abstract model of the parts of Java's reflective type system that the
 * routing utilities inspect: Class objects, the five kinds of
 * java.lang.reflect.Type, nullable references and thrown exceptions.
 */
module JavaTypes {

  /** A java.lang.Class object. Two classes are the same class when they are equal values. */
  datatype Class =
    | ClassDecl(name: string, interfaces: seq<Class>, isInterface: bool)
      // an ordinary class or interface: its name, the interfaces it directly
      // implements (or extends) in declaration order, and whether it is an interface
    | ArrayClass(component: Class)
      // the class of arrays whose elements have class `component`

  const Object: Class := ClassDecl("java.lang.Object", [], false)
  const Cloneable: Class := ClassDecl("java.lang.Cloneable", [], true)
  const Serializable: Class := ClassDecl("java.io.Serializable", [], true)
  const Parcelable: Class := ClassDecl("android.os.Parcelable", [], true)

  /** Class.isInterface(): array classes are never interfaces. */
  predicate IsInterface(c: Class) {
    c.ClassDecl? && c.isInterface
  }

  /**
   * Class.getInterfaces(): the declared direct super-interfaces of an ordinary
   * class; every array class implements Cloneable and Serializable, in that
   * order (section 10.8 of the Java Language Specification).
   */
  function GetInterfaces(c: Class): seq<Class> {
    match c
    case ClassDecl(_, ifs, _) => ifs
    case ArrayClass(_) => [Cloneable, Serializable]
  }

  /** A value of static type java.lang.reflect.Type, including the null reference. */
  datatype Type =
    | NullType
      // the null reference
    | ClassType(cls: Class)
      // a Class, which is itself a Type
    | Parameterized(rawType: Type, typeArguments: seq<Type>)
      // a ParameterizedType such as List<String>
    | GenericArray(componentType: Type)
      // a GenericArrayType such as T[] or List<String>[]
    | TypeVariable(name: string)
      // a TypeVariable such as T
    | Wildcard(upperBounds: seq<Type>)
      // a WildcardType such as ? extends Number
    | OtherType
      // an implementation of Type that is none of the five kinds above

  /** A Java reference of type T that may be null. */
  datatype Nullable<+T> = Null | NonNull(value: T)

  /** The exceptions the utilities throw, without their messages. */
  datatype Exception =
    | NullPointerException
    | IllegalArgumentException
    | ArrayIndexOutOfBoundsException

  /** The outcome of a Java call: a returned value or a thrown exception. */
  datatype Result<+T> = Ok(value: T) | Throws(exception: Exception)
}
