/**
  The ToolType name registry of Minecraft Forge: a process-wide table that
  interns tool-kind names ("axe", "pickaxe", ...) into unique token objects.

  The static table of the Java class is modelled as an explicit Registry
  object; a ToolType token is an immutable object that carries its name.
 */
module ToolTypes {

  datatype Option<T> = None | Some(value: T)

  /** The one failure `get` can signal: Java's IllegalArgumentException with its message. */
  datatype Error = IllegalArgument(message: string)

  datatype Result<T> = Success(value: T) | Failure(error: Error)

  /** The message text that `get` puts in front of the rejected name. */
  const InvalidNamePrefix: string := "ToolType.create() called with invalid name: "

  // ---------------------------------------------------------------------------
  // Name validation: the rejection pattern [^a-z_]
  // ---------------------------------------------------------------------------

  /** A character the pattern [^a-z_] does NOT match: a lower-case ASCII letter or '_'. */
  predicate IsNameChar(c: char) {
    ('a' <= c <= 'z') || c == '_'
  }

  /** A name in which the rejection pattern finds nothing. */
  predicate IsValidName(s: string) {
    forall i :: 0 <= i < |s| ==> IsNameChar(s[i])
  }

  /**
    The search `VALID_NAME.matcher(s).find()`: the index of the first
    character of `s` that the pattern [^a-z_] matches, or None when the
    search finds nothing.
   */
  function FindForbidden(s: string): (r: Option<nat>)
    ensures r.Some? ==> r.value < |s| && !IsNameChar(s[r.value])
    ensures r.Some? ==> forall j :: 0 <= j < r.value ==> IsNameChar(s[j])
    ensures r.None? <==> IsValidName(s)
  {
    if s == [] then None
    else if !IsNameChar(s[0]) then Some(0)
    else match FindForbidden(s[1..])
      case None => None
      case Some(i) => Some(i + 1)
  }

  /** Every string built only from 'a'..'z' and '_' passes, the empty one included. */
  lemma ConcatenationOfValidNamesIsValid(a: string, b: string)
    requires FindForbidden(a).None? && FindForbidden(b).None?
    ensures FindForbidden(a + b).None?
  {
  }

  /** The empty name passes validation: the pattern has nothing to find in it. */
  lemma EmptyNameIsValid()
    ensures FindForbidden("") == None
    ensures IsValidName("")
  {
  }

  /** A name fails validation exactly when one of its characters is outside [a-z_]. */
  lemma InvalidIffSomeForbiddenChar(s: string)
    ensures FindForbidden(s).Some? <==> exists i :: 0 <= i < |s| && !IsNameChar(s[i])
  {
  }

  /** The three names the source registers, and a name that uses '_' to separate words. */
  lemma ValidExampleNames()
    ensures FindForbidden("axe") == None && FindForbidden("pickaxe") == None
    ensures FindForbidden("shovel") == None && FindForbidden("tool_axe") == None
  {
  }

  /** An upper-case letter is rejected, and the search stops at it. */
  lemma UpperCaseRejected()
    ensures FindForbidden("Pickaxe") == Some(0)
  {
  }

  /** A digit is rejected at its own position. */
  lemma DigitRejected()
    ensures FindForbidden("axe2") == Some(3)
  {
  }

  /** A space, as a word separator instead of '_', is rejected at its position. */
  lemma SpaceRejected()
    ensures FindForbidden("tool axe") == Some(4)
  {
  }

  // ---------------------------------------------------------------------------
  // Tokens
  // ---------------------------------------------------------------------------

  /** A tool kind. Its name is fixed at construction; only the registry creates tokens. */
  class ToolType {
    const name: string

    constructor(name: string)
      ensures this.name == name
    {
      this.name := name;
    }

    /** `getName()`: the name given to the constructor. */
    function GetName(): (r: string)
      ensures r == name
    {
      name
    }
  }

  // ---------------------------------------------------------------------------
  // The table, as values
  // ---------------------------------------------------------------------------

  /** Every key is mapped to a token that carries that key as its name. */
  predicate Interned(m: map<string, ToolType>) {
    forall n :: n in m ==> m[n].name == n
  }

  /** Every entry of `m` is in `m'` with the same value. */
  predicate Extends<K, V(==)>(m: map<K, V>, m': map<K, V>) {
    forall k :: k in m ==> k in m' && m'[k] == m[k]
  }

  /**
    Java's `Map.putIfAbsent(k, v)`: the new table, and the mapping `k` had
    BEFORE the call (None when it had none).
   */
  function PutIfAbsent<K, V(==)>(m: map<K, V>, k: K, v: V): (r: (map<K, V>, Option<V>))
    ensures r.0.Keys == m.Keys + {k}
    ensures Extends(m, r.0)
    ensures r.0[k] == (if k in m then m[k] else v)
    ensures r.1 == (if k in m then Some(m[k]) else None)
    ensures |r.0| == |m| + (if k in m then 0 else 1)
  {
    if k in m then (m, Some(m[k])) else (m[k := v], None)
  }

  /** Inserting a token under its own name keeps the table interned. */
  lemma PutIfAbsentKeepsInterned(m: map<string, ToolType>, t: ToolType)
    requires Interned(m)
    ensures Interned(PutIfAbsent(m, t.name, t).0)
  {
  }

  /** Only the key itself can change: every other name keeps its entry or its absence. */
  lemma PutIfAbsentLeavesOtherNames<K, V>(m: map<K, V>, k: K, v: V, j: K)
    requires j != k
    ensures j in PutIfAbsent(m, k, v).0 <==> j in m
    ensures j in m ==> PutIfAbsent(m, k, v).0[j] == m[j]
  {
  }

  /**
    A second `putIfAbsent` under the same key, whatever value it offers,
    leaves the table as the first call left it and hands back the value the
    first call stored.
   */
  lemma PutIfAbsentIdempotent<K, V>(m: map<K, V>, k: K, v: V, w: V)
    ensures var m1 := PutIfAbsent(m, k, v).0;
      && PutIfAbsent(m1, k, w).0 == m1
      && |PutIfAbsent(m1, k, w).0| == |m1|
      && PutIfAbsent(m1, k, w).1 == Some(PutIfAbsent(m, k, v).0[k])
  {
  }

  /** In an interned table two different names never share a token. */
  lemma InternedIsInjective(m: map<string, ToolType>, a: string, b: string)
    requires Interned(m)
    requires a in m && b in m && a != b
    ensures m[a] != m[b]
  {
  }

  /**
    The table after one `get(t.name)` call, where `t` is the token the call
    constructs once the name has passed validation.
   */
  function Step(m: map<string, ToolType>, t: ToolType): map<string, ToolType> {
    if FindForbidden(t.name).None? then PutIfAbsent(m, t.name, t).0 else m
  }

  /**
    The table after a run of `get` calls. `calls[i]` is the token that the
    i-th call would construct; its name is the argument of that call. Each
    call adds at most one entry.
   */
  function Replay(m: map<string, ToolType>, calls: seq<ToolType>): (r: map<string, ToolType>)
    ensures |r| <= |m| + |calls|
    decreases |calls|
  {
    if calls == [] then m else Replay(Step(m, calls[0]), calls[1..])
  }

  /** The names of the calls in `calls` that pass validation. */
  function ValidNamesOf(calls: seq<ToolType>): set<string>
    decreases |calls|
  {
    if calls == [] then {}
    else (if FindForbidden(calls[0].name).None? then {calls[0].name} else {}) + ValidNamesOf(calls[1..])
  }

  /** `ValidNamesOf` holds exactly the valid names that some call asks for. */
  lemma {:induction false} ValidNamesOfMembers(calls: seq<ToolType>, n: string)
    ensures n in ValidNamesOf(calls) <==>
      IsValidName(n) && exists i :: 0 <= i < |calls| && calls[i].name == n
    decreases |calls|
  {
    if calls != [] {
      ValidNamesOfMembers(calls[1..], n);
      if exists i :: 0 <= i < |calls| && calls[i].name == n {
        var i :| 0 <= i < |calls| && calls[i].name == n;
        if i > 0 {
          assert calls[1..][i - 1].name == n;
        }
      }
      if exists j :: 0 <= j < |calls[1..]| && calls[1..][j].name == n {
        var j :| 0 <= j < |calls[1..]| && calls[1..][j].name == n;
        assert calls[j + 1].name == n;
      }
    }
  }

  /**
    Over any run of `get` calls the table only grows: nothing is removed or
    replaced, and it stays interned.
   */
  lemma {:induction false} ReplayIsMonotone(m: map<string, ToolType>, calls: seq<ToolType>)
    requires Interned(m)
    ensures Extends(m, Replay(m, calls))
    ensures Interned(Replay(m, calls))
    decreases |calls|
  {
    if calls != [] {
      ReplayIsMonotone(Step(m, calls[0]), calls[1..]);
    }
  }

  /** After any run of `get` calls the names are the earlier ones plus exactly the valid names asked for. */
  lemma {:induction false} ReplayNames(m: map<string, ToolType>, calls: seq<ToolType>)
    ensures Replay(m, calls).Keys == m.Keys + ValidNamesOf(calls)
    decreases |calls|
  {
    if calls != [] {
      ReplayNames(Step(m, calls[0]), calls[1..]);
    }
  }

  /**
    What `get` was evidently meant to return: the token stored under `k`
    after the call, whether it was already there or has just been added
    (`computeIfAbsent` rather than `putIfAbsent`).
   */
  function Intern<K, V(==)>(m: map<K, V>, k: K, v: V): (r: (map<K, V>, V))
    ensures r.0 == PutIfAbsent(m, k, v).0
    ensures k in r.0 && r.1 == r.0[k]
    ensures k in m ==> r.1 == m[k]
  {
    var (m', _) := PutIfAbsent(m, k, v);
    (m', m'[k])
  }

  /** Interning twice under one key hands back the same value and leaves the table alone. */
  lemma InternIdempotent<K, V>(m: map<K, V>, k: K, v: V, w: V)
    ensures Intern(Intern(m, k, v).0, k, w) == Intern(m, k, v)
  {
  }

  // ---------------------------------------------------------------------------
  // The registry object
  // ---------------------------------------------------------------------------

  /** The table `values` of the source, owned by an explicit object. */
  class Registry {
    var values: map<string, ToolType>

    ghost predicate Valid()
      reads this
    {
      Interned(values)
    }

    /** A new, empty table. */
    constructor()
      ensures Valid() && values == map[]
    {
      values := map[];
    }

    /**
      `ToolType.get(name)` as written: reject a name in which [^a-z_] finds a
      character; otherwise `putIfAbsent(name, new ToolType(name))`, returning
      the mapping the name had BEFORE the call.
     */
    method Get(name: string) returns (r: Result<Option<ToolType>>)
      requires Valid()
      modifies this
      ensures Valid()
      ensures r.Failure? <==> !IsValidName(name)
      ensures r.Failure? ==> r.error == IllegalArgument(InvalidNamePrefix + name) && values == old(values)
      ensures r.Success? && name in old(values) ==>
        r.value == Some(old(values)[name]) && values == old(values)
      ensures r.Success? && name !in old(values) ==>
        && r.value == None
        && name in values && fresh(values[name]) && values[name].GetName() == name
        && values == old(values)[name := values[name]]
      ensures Extends(old(values), values)
      // One step of Replay: with the fresh token it stores, or with any token of that name when
      // the call stores none.
      ensures r.Success? && name !in old(values) ==>
        name in values && values == Replay(old(values), [values[name]])
      ensures r.Failure? || name in old(values) ==>
        forall t: ToolType :: t.name == name ==> values == Replay(old(values), [t])
    {
      if FindForbidden(name).Some? {
        r := Failure(IllegalArgument(InvalidNamePrefix + name));
        return;
      }
      var token := new ToolType(name);
      var (table, previous) := PutIfAbsent(values, name, token);
      values := table;
      r := Success(previous);
    }

    /**
      `get` as evidently intended: the same validation and the same table
      update, but it returns the token now stored under the name.
     */
    method GetOrCreate(name: string) returns (r: Result<ToolType>)
      requires Valid()
      modifies this
      ensures Valid()
      ensures r.Failure? <==> !IsValidName(name)
      ensures r.Failure? ==> r.error == IllegalArgument(InvalidNamePrefix + name) && values == old(values)
      ensures r.Success? ==> name in values && r.value == values[name] && r.value.GetName() == name
      ensures r.Success? && name in old(values) ==>
        r.value == old(values)[name] && values == old(values)
      ensures r.Success? && name !in old(values) ==>
        fresh(r.value) && values == old(values)[name := r.value]
      ensures Extends(old(values), values)
    {
      if FindForbidden(name).Some? {
        r := Failure(IllegalArgument(InvalidNamePrefix + name));
        return;
      }
      var token := new ToolType(name);
      var (table, stored) := Intern(values, name, token);
      values := table;
      r := Success(stored);
    }
  }

  // ---------------------------------------------------------------------------
  // The three constants of the source, defined on a fresh registry
  // ---------------------------------------------------------------------------

  /**
    The three calls of the constants, made on an explicit, already
    initialised registry: as written, each receives `putIfAbsent`'s previous
    mapping, which is none at all.
   */
  method ConstantsAsWritten() returns (axe: Result<Option<ToolType>>, pickaxe: Result<Option<ToolType>>, shovel: Result<Option<ToolType>>)
    ensures axe == Success(None) && pickaxe == Success(None) && shovel == Success(None)
  {
    ValidExampleNames();
    var registry := new Registry();
    axe := registry.Get("axe");
    pickaxe := registry.Get("pickaxe");
    shovel := registry.Get("shovel");
  }

  /**
    With the intended `get`, the constants are three distinct tokens named
    after their arguments, and asking again for one of them returns it.
   */
  method ConstantsCorrected() returns (axe: ToolType, pickaxe: ToolType, shovel: ToolType, again: ToolType)
    ensures axe.GetName() == "axe" && pickaxe.GetName() == "pickaxe" && shovel.GetName() == "shovel"
    ensures axe != pickaxe && pickaxe != shovel && axe != shovel
    ensures again == pickaxe
  {
    ValidExampleNames();
    var registry := new Registry();
    var r := registry.GetOrCreate("axe");
    axe := r.value;
    r := registry.GetOrCreate("pickaxe");
    pickaxe := r.value;
    r := registry.GetOrCreate("shovel");
    shovel := r.value;
    r := registry.GetOrCreate("pickaxe");
    again := r.value;
  }
}
