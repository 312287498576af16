/** The entity the cache stores and the argument checks made on it. */
module Domain {
  import opened Wrappers

  /** The record cached and persisted. Its id is a Java String and so may be null. */
  datatype Entity = Entity(id: Option<string>, data: string)

  /** The kinds of failure the cache reports to its callers. */
  datatype Error =
    | InvalidArgument    // null or blank id, or a non-positive capacity
    | NotFound           // the id is neither cached nor stored
    | StoreUnavailable   // the persistence port failed

  /** True when c is one of the characters String.trim removes (code point at most a space). */
  predicate IsTrimmable(c: char) {
    c <= ' '
  }

  /** String.trim without its trailing half: drops the leading trimmable characters. */
  function TrimStart(s: string): (r: string)
    ensures |r| <= |s| && r == s[|s| - |r|..]
    ensures r != [] ==> !IsTrimmable(r[0])
    ensures forall i | 0 <= i < |s| - |r| :: IsTrimmable(s[i])
  {
    if s != [] && IsTrimmable(s[0]) then TrimStart(s[1..]) else s
  }

  /** String.trim without its leading half: drops the trailing trimmable characters. */
  function TrimEnd(s: string): (r: string)
    ensures |r| <= |s| && r == s[..|r|]
    ensures r != [] ==> !IsTrimmable(r[|r| - 1])
    ensures forall i | |r| <= i < |s| :: IsTrimmable(s[i])
  {
    if s != [] && IsTrimmable(s[|s| - 1]) then TrimEnd(s[..|s| - 1]) else s
  }

  /** Java's String.trim: the string without leading and trailing characters up to a space. */
  function Trim(s: string): (r: string)
    ensures |r| <= |s|
    ensures r != [] ==> !IsTrimmable(r[0]) && !IsTrimmable(r[|r| - 1])
  {
    TrimEnd(TrimStart(s))
  }

  /** s.trim().isEmpty() holds exactly when every character of s is trimmable. */
  lemma TrimEmptyIffBlank(s: string)
    ensures Trim(s) == [] <==> forall i | 0 <= i < |s| :: IsTrimmable(s[i])
  {
    var t := TrimStart(s);
    if forall i | 0 <= i < |s| :: IsTrimmable(s[i]) {
      assert t == [];
    } else {
      var j :| 0 <= j < |s| && !IsTrimmable(s[j]);
      assert j >= |s| - |t|;
      assert t[j - (|s| - |t|)] == s[j];
    }
  }

  /** The id check that add, get and remove make first: not null and not blank. */
  predicate ValidId(id: Option<string>) {
    id.Some? && Trim(id.value) != []
  }

  /** The argument check of add: a non-null entity whose id passes ValidId. */
  predicate ValidEntity(entity: Option<Entity>) {
    entity.Some? && ValidId(entity.value.id)
  }

  /**
   * An id passes the check exactly when it is not null and holds a character above
   * a space; an entity passes exactly when it is not null and its id passes.
   */
  lemma ValidIdNotBlank(id: Option<string>, entity: Option<Entity>)
    ensures ValidId(id) <==> id.Some? && exists i | 0 <= i < |id.value| :: !IsTrimmable(id.value[i])
    ensures ValidEntity(entity) <==> (entity.Some? && entity.value.id.Some?
      && exists i | 0 <= i < |entity.value.id.value| :: !IsTrimmable(entity.value.id.value[i]))
  {
    if id.Some? {
      TrimEmptyIffBlank(id.value);
    }
    if entity.Some? && entity.value.id.Some? {
      TrimEmptyIffBlank(entity.value.id.value);
    }
  }
}
