/** The test classes a story runs against, with Java reflection replaced by plain data:
    each class lists its annotated handler methods, its declared fields, its superclass,
    its nested classes and the field values of a freshly constructed instance. */
module Classes {
  import opened Wrappers
  import opened Sentences

  /** A field of the test object, identified by the class that declares it and its name. */
  type FieldId = string

  /** A field value. Values are immutable, so storing one is storing a copy. */
  datatype Value = Null | Num(n: int) | Str(s: string) | Ref(id: nat)

  /** The fields of one object and their values. */
  type State = map<FieldId, Value>

  /** A method carrying a Given, When or Then annotation whose text ends with a placeholder
      word for the parameter. */
  datatype Handler = Handler(role: Kind, annotation: string, name: string)

  /** A test class: handlers in declaration order, declared fields, superclass, nested
      classes in declaration order, and the fields of a new instance. */
  datatype Class = Class(
    name: string,
    fields: seq<FieldId>,
    handlers: seq<Handler>,
    parent: Option<Class>,
    nested: seq<Class>,
    init: State)

  /** What invoking a handler does: it returns with the object's new fields, or throws a
      comparison failure carrying expected and actual text (after possibly changing fields),
      or throws anything else. */
  datatype Effect =
    | Returned(state: State)
    | CompareFailure(state: State, expected: string, actual: string)
    | Crashed

  /** The meaning of the handler bodies: the effect of invoking a handler on an object
      with the sentence's parameter. */
  type Invoker = (Handler, State, string) -> Effect
}
