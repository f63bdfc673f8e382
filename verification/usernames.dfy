/** `findUniqueUsername`, shared by the User, Applicant and Instructor
    schemas (they query one collection). The store's `findOne` becomes
    membership in the finite set of taken usernames; a lookup that errors
    is a candidate in `unreachable`. */
module Usernames {
  import opened Options
  import opened NumberText

  datatype Store = Store(taken: set<string>, unreachable: set<string>)

  /** `username + (suffix || '')`: no suffix for 0; otherwise the
      number's decimal text, digits only with no leading zero. */
  function Candidate(username: string, suffix: nat): (c: string)
    ensures suffix == 0 ==> c == username
    ensures suffix > 0 ==> |username| < |c| && c[..|username|] == username
    ensures suffix > 0 ==> forall k :: |username| <= k < |c| ==> '0' <= c[k] <= '9'
    ensures suffix > 0 ==> c[|username|] != '0' && ParseDecimal(c[|username|..]) == suffix
  {
    if suffix == 0 then username
    else
      ParseDecimalRoundTrip(suffix);
      assert (username + Decimal(suffix))[|username|..] == Decimal(suffix);
      username + Decimal(suffix)
  }

  /** Every candidate from `from` up to, not including, `upto` was found
      taken, with no lookup error. */
  ghost predicate AllTaken(store: Store, username: string, from: nat, upto: nat)
  {
    forall j :: from <= j < upto ==> Candidate(username, j) in store.taken && Candidate(username, j) !in store.unreachable
  }

  /** The length of the longest taken username. */
  ghost function MaxLength(names: set<string>): (m: nat)
    ensures forall t :: t in names ==> |t| <= m
    decreases |names|
  {
    if names == {} then 0
    else
      var x :| x in names;
      var rest := MaxLength(names - {x});
      if |x| > rest then |x| else rest
  }

  /** Candidates at or past this suffix are longer than every taken name. */
  ghost function SearchBound(store: Store): nat
  {
    Pow10(MaxLength(store.taken))
  }

  lemma PastBoundIsFree(store: Store, username: string, suffix: nat)
    requires SearchBound(store) <= suffix
    ensures Candidate(username, suffix) !in store.taken
  {
    DecimalLengthBound(suffix, MaxLength(store.taken));
  }

  /** The suffix at which the search stops: the first candidate from
      `suffix` on whose lookup errors or finds no user. */
  function StopSuffix(store: Store, username: string, suffix: nat): (k: nat)
    ensures suffix <= k
    ensures AllTaken(store, username, suffix, k)
    ensures Candidate(username, k) in store.unreachable || Candidate(username, k) !in store.taken
    decreases SearchBound(store) - suffix
  {
    var possible := Candidate(username, suffix);
    if possible in store.unreachable || possible !in store.taken then suffix
    else
      assert suffix < SearchBound(store) by {
        if SearchBound(store) <= suffix {
          PastBoundIsFree(store, username, suffix);
        }
      }
      var k := StopSuffix(store, username, suffix + 1);
      assert AllTaken(store, username, suffix, k) by {
        forall j | suffix <= j < k
          ensures Candidate(username, j) in store.taken && Candidate(username, j) !in store.unreachable
        {
          if j == suffix {
            assert Candidate(username, j) == possible;
          }
        }
      }
      k
  }

  /** Tries `username + suffix`, `username + (suffix + 1)`, ... and yields
      the first candidate that is not taken, or `None` as soon as a lookup
      errors. */
  function FindUniqueUsername(store: Store, username: string, suffix: nat): (r: Option<string>)
    ensures r.Some? ==> r.value !in store.taken && r.value !in store.unreachable
    ensures r.Some? ==> exists k :: suffix <= k && r.value == Candidate(username, k) && AllTaken(store, username, suffix, k)
    ensures r.None? ==> exists k :: suffix <= k && Candidate(username, k) in store.unreachable && AllTaken(store, username, suffix, k)
  {
    var k := StopSuffix(store, username, suffix);
    if Candidate(username, k) in store.unreachable then None else Some(Candidate(username, k))
  }

  /** The first call passes no suffix. */
  function FindUnique(store: Store, username: string): Option<string>
  {
    FindUniqueUsername(store, username, 0)
  }

  /** With "alex" and "alex1" taken the search settles on "alex2"; on an
      empty store it keeps "alex". */
  lemma AlexExample()
    ensures FindUnique(Store({"alex", "alex1"}, {}), "alex") == Some("alex2")
    ensures FindUnique(Store({}, {}), "alex") == Some("alex")
  {
    var store := Store({"alex", "alex1"}, {});
    assert Candidate("alex", 1) == "alex1";
    assert Candidate("alex", 2) == "alex2";
    assert StopSuffix(store, "alex", 2) == 2;
    assert StopSuffix(store, "alex", 1) == 2;
    assert StopSuffix(store, "alex", 0) == 2;
  }
}
