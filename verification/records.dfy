/** The student record as the remote collection returns it, and the draft
    object the modal edits: the same four keys, any of which may be absent. */
module Records {
  import opened Wrappers

  /** The identifier the remote service assigns; the client never makes one. */
  type Id = string

  /** A value held under a record key. Text inputs always yield strings; the
      service may return `marks` as a number. */
  datatype Value = Str(text: string) | Num(number: int)

  /** JavaScript truthiness of a possibly absent value: `undefined`, `""`
      and `0` are falsy, everything else here is truthy. */
  predicate Truthy(v: Option<Value>)
  {
    match v
    case None => false
    case Some(Str(t)) => t != ""
    case Some(Num(n)) => n != 0
  }

  /** A row of the table, as returned by the remote service. */
  datatype Student = Student(id: Id, name: string, address: string, marks: Value)

  /** The `name` attribute of the three inputs of the edit and add forms. */
  datatype Field = Name | Address | Marks

  /** The object held in `currentStudent`: keys may be missing, e.g. while
      an add form is being filled in. */
  datatype Draft = Draft(id: Option<Id>, name: Option<Value>, address: Option<Value>, marks: Option<Value>)

  /** `draft[field]` */
  function Get(d: Draft, f: Field): Option<Value>
  {
    match f
    case Name => d.name
    case Address => d.address
    case Marks => d.marks
  }

  /** A listed student used as the draft: every key is present and holds the
      student's own value. */
  function DraftOf(s: Student): (d: Draft)
    ensures d.id == Some(s.id)
    ensures Get(d, Name) == Some(Str(s.name))
    ensures Get(d, Address) == Some(Str(s.address))
    ensures Get(d, Marks) == Some(s.marks)
  {
    Draft(Some(s.id), Some(Str(s.name)), Some(Str(s.address)), Some(s.marks))
  }

  /** `{ ...current, [field]: value }`: spreading `null` gives an empty
      object, so a missing draft becomes one holding only `field`. */
  function Merge(current: Option<Draft>, f: Field, value: string): (d: Draft)
    ensures Get(d, f) == Some(Str(value))
    ensures forall g :: g != f ==> Get(d, g) == (if current.Some? then Get(current.value, g) else None)
    ensures d.id == (if current.Some? then current.value.id else None)
  {
    var base := current.GetOr(Draft(None, None, None, None));
    match f
    case Name => base.(name := Some(Str(value)))
    case Address => base.(address := Some(Str(value)))
    case Marks => base.(marks := Some(Str(value)))
  }

  /** The presence check of the add form: a draft exists and its name,
      address and marks are all truthy. */
  predicate Complete(current: Option<Draft>)
  {
    && current.Some?
    && Truthy(current.value.name)
    && Truthy(current.value.address)
    && Truthy(current.value.marks)
  }

  /** The presence check field by field: it fails exactly when there is no
      draft, or one of name, address and marks is missing, the empty string
      or the number zero. */
  lemma CompleteMeansFilled(current: Option<Draft>)
    ensures Complete(current) <==>
              && current.Some?
              && (forall f :: Get(current.value, f).Some?)
              && (forall f :: Get(current.value, f) != Some(Str("")))
              && (forall f :: Get(current.value, f) != Some(Num(0)))
  {
    if current.Some? {
      var d := current.value;
      assert Get(d, Name) == d.name && Get(d, Address) == d.address && Get(d, Marks) == d.marks;
    }
  }
}
