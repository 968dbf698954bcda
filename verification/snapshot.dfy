/** Saving and restoring the fields declared on the test class around a group of When
    sentences (StoryTesterImpl.createBackup / restoreBackup). Field values are immutable,
    so the value stored for a field is a copy of it. */
module Snapshot {
  import opened Classes

  /** The saved value of each field declared on the test class. */
  type Backup = map<FieldId, Value>

  /** The fields the class itself declares (not those of its superclasses). */
  function Declared(c: Class): (fs: set<FieldId>) {
    set f | f in c.fields
  }

  /** A field's value, null when the map has none (HashMap.get). */
  function Lookup(m: map<FieldId, Value>, f: FieldId): (v: Value) {
    if f in m then m[f] else Null
  }

  /** createBackup: every declared field with its current value. */
  function Capture(c: Class, st: State): (b: Backup)
    ensures b.Keys == Declared(c)
    ensures forall f :: f in b ==> b[f] == Lookup(st, f)
  {
    map f | f in Declared(c) :: Lookup(st, f)
  }

  /** restoreBackup: every declared field is set to its saved value; every other field of the
      object keeps the value it has now. */
  function Restore(c: Class, st: State, b: Backup): (r: State)
    ensures r.Keys == st.Keys + Declared(c)
    ensures forall f :: f in Declared(c) ==> r[f] == Lookup(b, f)
    ensures forall f :: f in st && f !in Declared(c) ==> r[f] == st[f]
  {
    map f | f in st.Keys + Declared(c) :: if f in Declared(c) then Lookup(b, f) else st[f]
  }

  /** Restoring a backup taken earlier undoes every change to the declared fields made since,
      whatever they were, and keeps every change to the other fields. */
  lemma RestoreUndoes(c: Class, before: State, after: State)
    ensures forall f :: f in Declared(c) ==> Lookup(Restore(c, after, Capture(c, before)), f) == Lookup(before, f)
    ensures forall f :: f !in Declared(c) ==> Lookup(Restore(c, after, Capture(c, before)), f) == Lookup(after, f)
  {
  }

  /** Restoring right after saving changes nothing, when the object has all its declared fields. */
  lemma RestoreAfterCapture(c: Class, st: State)
    requires Declared(c) <= st.Keys
    ensures Restore(c, st, Capture(c, st)) == st
  {
    var r := Restore(c, st, Capture(c, st));
    assert r.Keys == st.Keys;
  }

  /** Restoring twice from the same backup is restoring once. */
  lemma RestoreIdempotent(c: Class, st: State, b: Backup)
    ensures Restore(c, Restore(c, st, b), b) == Restore(c, st, b)
  {
  }
}
