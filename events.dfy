/**
 * The adapter event kinds: a numeric enum `Events` and the `AdapterEvent`
 * static getters that turn a member name into the event-type value by a
 * forward lookup (name to ordinal) followed by the enum's reverse lookup
 * (ordinal back to name).
 */
module Events {
  import opened Wrappers

  /** The members of `enum Events`, in declaration order. */
  datatype EventKind = ROOT | ADD | CHANGE | REMOVE

  /** The numeric value the enum assigns to each member. */
  function Ordinal(k: EventKind): (n: nat)
    ensures n < 4
  {
    match k
    case ROOT => 0
    case ADD => 1
    case CHANGE => 2
    case REMOVE => 3
  }

  /** The member's name, which the reverse mapping returns. */
  function Name(k: EventKind): string
  {
    match k
    case ROOT => "ROOT"
    case ADD => "ADD"
    case CHANGE => "CHANGE"
    case REMOVE => "REMOVE"
  }

  /** The property key a number is converted to when it indexes an object. */
  function NumberKey(n: nat): string
    requires n < 10
  {
    [('0' as int + n) as char]
  }

  /** A value stored in the enum object: an ordinal or a member name. */
  datatype EnumValue = Num(n: nat) | Str(s: string)

  /** The property key `value` becomes when used as `Events[value]`. */
  function KeyOf(v: EnumValue): string
  {
    match v
    case Num(n) => if n < 10 then NumberKey(n) else ""
    case Str(s) => s
  }

  /**
   * The own properties of the compiled enum object: every member name maps
   * to its ordinal and every ordinal (as a key) maps back to its name; no
   * other key is present.
   */
  function Lookup(key: string): (r: Option<EnumValue>)
    ensures forall k :: key == Name(k) ==> r == Some(Num(Ordinal(k)))
    ensures forall k :: key == NumberKey(Ordinal(k)) ==> r == Some(Str(Name(k)))
    ensures r.Some? ==> exists k :: key == Name(k) || key == NumberKey(Ordinal(k))
  {
    match key
    case "ROOT" => assert key == Name(ROOT); Some(Num(0))
    case "ADD" => assert key == Name(ADD); Some(Num(1))
    case "CHANGE" => assert key == Name(CHANGE); Some(Num(2))
    case "REMOVE" => assert key == Name(REMOVE); Some(Num(3))
    case "0" => assert key == NumberKey(Ordinal(ROOT)); Some(Str("ROOT"))
    case "1" => assert key == NumberKey(Ordinal(ADD)); Some(Str("ADD"))
    case "2" => assert key == NumberKey(Ordinal(CHANGE)); Some(Str("CHANGE"))
    case "3" => assert key == NumberKey(Ordinal(REMOVE)); Some(Str("REMOVE"))
    case _ =>
      assert forall k :: key != Name(k) && key != NumberKey(Ordinal(k));
      None
  }

  /**
   * `AdapterEvent._get(key)`, i.e. `Events[Events[key]]`; `None` is
   * `undefined` (a missing key, and `Events[undefined]`, read nothing).
   */
  function Get(key: string): (r: Option<EnumValue>)
    ensures forall k :: key == Name(k) ==> r == Some(Str(key))
    ensures forall k :: key == NumberKey(Ordinal(k)) ==> r == Some(Num(Ordinal(k)))
    ensures r.Some? <==> Lookup(key).Some?
  {
    match Lookup(key)
    case None => None
    case Some(v) => Lookup(KeyOf(v))
  }

  /** The getters `AdapterEvent.ROOT`, `.ADD`, `.CHANGE` and `.REMOVE`. */
  function Getter(k: EventKind): (r: Option<EnumValue>)
    ensures r == Some(Str(Name(k)))
  {
    Get(Name(k))
  }

  /** Which kind, if any, an event-type string names. */
  function KindOf(s: string): (r: Option<EventKind>)
    ensures r.Some? ==> Name(r.value) == s
  {
    match s
    case "ROOT" => Some(ROOT)
    case "ADD" => Some(ADD)
    case "CHANGE" => Some(CHANGE)
    case "REMOVE" => Some(REMOVE)
    case _ => None
  }

  /** Every member's name maps back to that member, and nothing else names a member. */
  lemma KindOfName(s: string, k: EventKind)
    ensures KindOf(s) == Some(k) <==> s == Name(k)
  {
  }

  /** The enum numbers its members 0 to 3 in declaration order, so distinct members get distinct ordinals. */
  lemma OrdinalsInOrder()
    ensures Ordinal(ROOT) == 0 && Ordinal(ADD) == 1 && Ordinal(CHANGE) == 2 && Ordinal(REMOVE) == 3
    ensures forall j, k :: Ordinal(j) == Ordinal(k) ==> j == k
  {
  }

  /** The four getter values are pairwise distinct. */
  lemma GettersDistinct(j: EventKind, k: EventKind)
    ensures Getter(j) == Getter(k) <==> j == k
  {
    if j != k {
      KindOfName(Name(j), j);
      KindOfName(Name(j), k);
    }
  }
}
