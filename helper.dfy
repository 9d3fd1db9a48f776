/** The key predicates that classify prop names for the prop diff. */
module Helper {
  import opened Values

  /** `obj[key]`: the value stored under `k`, or `undefined` when absent. */
  function Get(m: map<string, Value>, k: string): (v: Value)
    ensures k in m ==> v == m[k]
    ensures k !in m ==> v == Undefined
  {
    if k in m then m[k] else Undefined
  }

  /** `s.startsWith(p)`. */
  predicate StartsWith(s: string, p: string) {
    |p| <= |s| && s[..|p|] == p
  }

  /** `isEvent(key)`: the key names an event listener. */
  function IsEvent(k: string): (b: bool)
    ensures b <==> exists rest: string :: k == "on" + rest
  {
    if StartsWith(k, "on") then
      assert k == "on" + k[2..];
      true
    else
      assert forall rest: string :: k != "on" + rest by {
        forall rest: string ensures k != "on" + rest {
          assert ("on" + rest)[..2] == "on";
        }
      }
      false
  }

  /** `isProperty(key)`: a plain attribute, neither `children` nor an event. */
  function IsProperty(k: string): (b: bool)
    ensures b <==> k != "children" && !IsEvent(k)
  {
    k != "children" && !StartsWith(k, "on")
  }

  /**
   * `isNew(prev, next)(key)`: `prev[key] !== next[key]`. A key present on one
   * side only counts as new unless the value it holds there is `undefined`.
   */
  function IsNew(prev: map<string, Value>, next: map<string, Value>, k: string): (b: bool)
    ensures k in prev && k in next ==> (b <==> prev[k] != next[k])
    ensures k in prev && k !in next ==> (b <==> prev[k] != Undefined)
    ensures k !in prev && k in next ==> (b <==> next[k] != Undefined)
    ensures k !in prev && k !in next ==> !b
  {
    Get(prev, k) != Get(next, k)
  }

  /**
   * `isGone(prev, next)(key)`: the key is not a key of `next`; a gone key
   * reads as `undefined` there, though an `undefined` value need not be gone.
   */
  function IsGone(prev: map<string, Value>, next: map<string, Value>, k: string): (b: bool)
    ensures b ==> Get(next, k) == Undefined
    ensures !b ==> k in next && Get(next, k) == next[k]
  {
    k !in next
  }

  /** No key is both an event and a property, and `children` is neither. */
  lemma EventAndPropertyDisjoint(k: string)
    ensures !(IsEvent(k) && IsProperty(k))
    ensures !IsEvent("children") && !IsProperty("children")
  {
    assert "children"[..2] == "ch";
  }

  /** A key absent from `prev` and defined in `next` counts as new. */
  lemma AbsentThenDefinedIsNew(prev: map<string, Value>, next: map<string, Value>, k: string)
    requires k !in prev && k in next && next[k] != Undefined
    ensures IsNew(prev, next, k)
  {
  }

  /** A key present in both maps with the same value is not new. */
  lemma SameValueIsNotNew(prev: map<string, Value>, next: map<string, Value>, k: string)
    requires k in prev && k in next && prev[k] == next[k]
    ensures !IsNew(prev, next, k)
  {
  }

  /** `isGone` depends only on the key set of `next`, never on values or on `prev`. */
  lemma GoneIgnoresValues(prev: map<string, Value>, prev': map<string, Value>,
                          next: map<string, Value>, next': map<string, Value>, k: string)
    requires next.Keys == next'.Keys
    ensures IsGone(prev, next, k) == IsGone(prev', next', k)
  {
  }
}
