/**
 * The dashboard permission levels: an integer enumeration of increasing power,
 * where a higher level includes every lower one.
 */
module PermissionLevels {
  import opened Wrappers

  datatype Level = NONE | READ | WRITE | ADMIN

  /** The integer each level is stored as. */
  function Value(l: Level): int {
    match l
    case NONE => 0
    case READ => 10
    case WRITE => 20
    case ADMIN => 30
  }

  /** Lookup of a level by its stored integer; `None` when no member has that value. */
  function FromValue(v: int): (r: Option<Level>)
    ensures r.Some? ==> Value(r.value) == v
    ensures r.None? ==> forall l: Level :: Value(l) != v
  {
    if v == 0 then Some(NONE)
    else if v == 10 then Some(READ)
    else if v == 20 then Some(WRITE)
    else if v == 30 then Some(ADMIN)
    else None
  }

  /** "Higher includes lower": level `l` satisfies a check that requires `m`. */
  predicate Includes(l: Level, m: Level) {
    Value(l) >= Value(m)
  }

  /** The greater of two levels. */
  function Max(a: Level, b: Level): (m: Level)
    ensures Includes(m, a) && Includes(m, b)
    ensures m == a || m == b
  {
    if Value(a) >= Value(b) then a else b
  }

  lemma ExactlyFourLevels(v: int)
    ensures FromValue(v).Some? <==> v == 0 || v == 10 || v == 20 || v == 30
    ensures forall l: Level :: FromValue(Value(l)) == Some(l)
  {
  }

  lemma StrictlyIncreasing()
    ensures Value(NONE) < Value(READ) < Value(WRITE) < Value(ADMIN)
  {
  }

  /** `Includes` is a total order on the four levels (and `Value` is injective). */
  lemma IncludesIsTotalOrder(a: Level, b: Level, c: Level)
    ensures Includes(a, a)
    ensures Includes(a, b) && Includes(b, a) ==> a == b
    ensures Includes(a, b) && Includes(b, c) ==> Includes(a, c)
    ensures Includes(a, b) || Includes(b, a)
  {
  }

  lemma NoneIsLeastAdminIsGreatest(l: Level)
    ensures Includes(l, NONE) && Includes(ADMIN, l)
  {
  }

  lemma HigherIncludesLower(l: Level)
    ensures Includes(l, ADMIN) ==> Includes(l, WRITE)
    ensures Includes(l, WRITE) ==> Includes(l, READ)
    ensures Includes(l, READ) ==> Includes(l, NONE)
  {
  }
}
