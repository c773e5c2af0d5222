/**
 * The roster (`info.json`): an ordered list of JSON objects with the keys
 * `roll`, `name` and `position`, and the first-match lookup by roll.
 */
module Roster {
  import opened Results
  import opened Text

  /**
   * A roster field as `entry.get(key)` returns it: a JSON string, a JSON
   * integer, or `Missing` when the key is absent (Python's `None`).
   */
  datatype Value = Str(s: string) | Int(i: int) | Missing {

    /** Python truthiness: non-empty string, non-zero integer. */
    predicate Truthy() {
      match this
      case Str(s) => s != []
      case Int(i) => i != 0
      case Missing => false
    }

    /** Python's `str(value)`. */
    function Text(): string {
      match this
      case Str(s) => s
      case Int(i) => IntToString(i)
      case Missing => "None"
    }

    /** `entry.get(key, '')`: an absent key reads as the empty string. */
    function OrEmpty(): (v: Value)
      ensures !v.Missing?
      ensures v.Truthy() == Truthy()
    {
      if Missing? then Str("") else this
    }
  }

  datatype Entry = Entry(roll: Value, name: Value, position: Value)

  /** `str(position).isdigit()`. */
  predicate ValidPosition(v: Value) {
    IsDigits(v.Text())
  }

  /**
   * `int(position)` once `str(position)` is known to be a digit string: an
   * integer is kept as it is, a string is parsed. Both agree with parsing
   * the printed form, and the rank is never negative.
   */
  function PositionValue(v: Value): (n: nat)
    requires ValidPosition(v)
    ensures n == ParseNat(v.Text())
  {
    if v.Int? then
      IntToStringDigitsIff(v.i);
      ParseNatToString(v.i);
      v.i
    else
      ParseNat(v.Text())
  }

  /** A valid string position and the integer it names have the same rank. */
  lemma PositionIntAndString(i: int)
    requires ValidPosition(Int(i))
    ensures ValidPosition(Str(IntToString(i)))
    ensures PositionValue(Int(i)) == PositionValue(Str(IntToString(i))) == i
  {
  }

  /** `item.get('roll') == roll`: only a JSON string equal to the input matches. */
  predicate RollMatches(v: Value, roll: string) {
    v == Str(roll)
  }

  /**
   * `next((item for item in infos if item.get('roll') == roll), None)`,
   * as the index of the entry found.
   */
  function Lookup(roster: seq<Entry>, roll: string): (r: Option<nat>)
    ensures r.Some? ==> r.value < |roster| && RollMatches(roster[r.value].roll, roll)
    ensures r.Some? ==> forall j :: 0 <= j < r.value ==> !RollMatches(roster[j].roll, roll)
    ensures r.None? ==> forall j :: 0 <= j < |roster| ==> !RollMatches(roster[j].roll, roll)
  {
    if |roster| == 0 then None
    else if RollMatches(roster[0].roll, roll) then Some(0)
    else
      match Lookup(roster[1..], roll)
      case None => None
      case Some(i) => Some(i + 1)
  }

  /** An integer roll never matches the typed-in roll, whatever its digits. */
  lemma IntRollNeverMatches(roster: seq<Entry>, roll: string, j: nat)
    requires j < |roster| && roster[j].roll.Int?
    ensures Lookup(roster, roll) != Some(j)
  {
  }

  /** The lookup only depends on the entries up to and including the first match. */
  lemma {:induction false} LookupIgnoresLaterEntries(roster: seq<Entry>, more: seq<Entry>, roll: string)
    requires Lookup(roster, roll).Some?
    ensures Lookup(roster + more, roll) == Lookup(roster, roll)
  {
    if !RollMatches(roster[0].roll, roll) {
      assert (roster + more)[1..] == roster[1..] + more;
      LookupIgnoresLaterEntries(roster[1..], more, roll);
    }
  }
}
