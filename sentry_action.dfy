/**
  Sentry privilege actions: parsing an action name (case-insensitively, with '*'
  as a synonym of ALL), rendering it back, and the "implies" relation between
  actions that privilege checks use.
*/
module SentryAction {
  import opened Wrappers
  import opened KuduStatus
  import opened AsciiStrings

  datatype Action =
    | Uninitialized
    | All
    | Metadata
    | Select
    | Insert
    | Update
    | Delete
    | Alter
    | Create
    | Drop
    | Owner

  /** The wildcard the Java Sentry client sends for ALL. */
  const WILDCARD: string := "*"

  /** The action-name constants the parser compares against. */
  function ActionName(a: Action): string
  {
    match a
    case Uninitialized => "UNINITIALIZED"
    case All => "ALL"
    case Metadata => "METADATA"
    case Select => "SELECT"
    case Insert => "INSERT"
    case Update => "UPDATE"
    case Delete => "DELETE"
    case Alter => "ALTER"
    case Create => "CREATE"
    case Drop => "DROP"
    case Owner => "OWNER"
  }

  /** ActionToString: the printable name of an action; UNINITIALIZED has one too. */
  function ActionToString(a: Action): (s: string)
    ensures |s| > 0
    ensures Upper(s) == s
  {
    ActionName(a)
  }

  /** Parses an action name; anything that is no action name is an InvalidArgument. */
  function FromString(str: string): (r: Result<Action, Status>)
    ensures r.Ok? ==> r.value != Uninitialized
    ensures r.Err? ==> r.error == InvalidArgument("unknown SentryAction: " + str)
  {
    if IEquals(str, ActionName(All)) || str == WILDCARD then Ok(All)
    else if IEquals(str, ActionName(Metadata)) then Ok(Metadata)
    else if IEquals(str, ActionName(Select)) then Ok(Select)
    else if IEquals(str, ActionName(Insert)) then Ok(Insert)
    else if IEquals(str, ActionName(Update)) then Ok(Update)
    else if IEquals(str, ActionName(Delete)) then Ok(Delete)
    else if IEquals(str, ActionName(Alter)) then Ok(Alter)
    else if IEquals(str, ActionName(Create)) then Ok(Create)
    else if IEquals(str, ActionName(Drop)) then Ok(Drop)
    else if IEquals(str, ActionName(Owner)) then Ok(Owner)
    else Err(InvalidArgument("unknown SentryAction: " + str))
  }

  /** The action names are written in upper case, so upper-casing leaves them alone. */
  lemma NamesUpper()
    ensures forall a :: Upper(ActionName(a)) == ActionName(a)
  {
    forall a
      ensures Upper(ActionName(a)) == ActionName(a)
    {
      var n := ActionName(a);
      assert forall i :: 0 <= i < |n| ==> 'A' <= n[i] <= 'Z';
      assert forall i :: 0 <= i < |n| ==> Upper(n)[i] == n[i];
    }
  }

  /**
    What the parser accepts, in both directions: a string parses to the
    initialized action a exactly when it equals a's name ignoring case, or
    when a is ALL and the string is the wildcard.
  */
  lemma FromStringAccepts(str: string, a: Action)
    requires a != Uninitialized
    ensures FromString(str) == Ok(a) <==>
            IEquals(str, ActionName(a)) || (a == All && str == WILDCARD)
  {
    if FromString(str) == Ok(a) {
      ParsedNameMatches(str, a);
    }
    if IEquals(str, ActionName(a)) || (a == All && str == WILDCARD) {
      MatchingNameParses(str, a);
    }
  }

  lemma ParsedNameMatches(str: string, a: Action)
    requires FromString(str) == Ok(a)
    ensures IEquals(str, ActionName(a)) || (a == All && str == WILDCARD)
  {
  }

  lemma MatchingNameParses(str: string, a: Action)
    requires a != Uninitialized
    requires IEquals(str, ActionName(a)) || (a == All && str == WILDCARD)
    ensures FromString(str) == Ok(a)
  {
    NamesUpper();
    var u := Upper(str);
    if str == WILDCARD {
      assert u == WILDCARD;
    }
    NamesDistinct(u, a);
  }

  /** A string equal to one action name differs from every other action name. */
  lemma NamesDistinct(u: string, a: Action)
    requires a != Uninitialized
    ensures u == ActionName(a) ==> forall b :: b != a ==> u != ActionName(b)
  {
    if u == ActionName(a) {
      forall b | b != a
        ensures u != ActionName(b)
      {
        var x, y := ActionName(a), ActionName(b);
        assert |x| != |y| || x[0] != y[0];
      }
    }
  }

  /** Rendering an initialized action and parsing it again gives the action back. */
  lemma FromStringToString(a: Action)
    requires a != Uninitialized
    ensures FromString(ActionToString(a)) == Ok(a)
  {
    FromStringAccepts(ActionToString(a), a);
  }

  /** Names are accepted in any letter case: upper-casing the input does not change the parsed action. */
  lemma FromStringIgnoresCase(str: string)
    ensures FromString(Upper(str)).Ok? <==> FromString(str).Ok?
    ensures FromString(str).Ok? ==> FromString(Upper(str)) == FromString(str)
  {
    var u := Upper(str);
    assert Upper(u) == Upper(str) by {
      assert forall i :: 0 <= i < |u| ==> UpperChar(UpperChar(str[i])) == UpperChar(str[i]);
    }
    assert u == WILDCARD <==> str == WILDCARD by {
      if u == WILDCARD {
        assert UpperChar(str[0]) == '*';
        assert str == WILDCARD;
      }
    }
    forall a | a != Uninitialized
      ensures IEquals(u, ActionName(a)) == IEquals(str, ActionName(a))
    {
    }
  }

  /** UNINITIALIZED, an empty string and an unknown name are rejected. */
  lemma FromStringRejects()
    ensures FromString("UNINITIALIZED").Err?
    ensures FromString("").Err?
    ensures FromString("**").Err?
  {
    NamesUpper();
    assert |Upper("UNINITIALIZED")| == 13 && |Upper("")| == 0;
    assert Upper("**") == "**";
  }

  /**
    Whether holding action a grants action other. Both must be initialized
    (the source checks this and aborts otherwise). ALL and OWNER grant
    everything; every action grants METADATA; otherwise only equal actions.
  */
  predicate Implies(a: Action, other: Action)
    requires a != Uninitialized && other != Uninitialized
  {
    if a == All || a == Owner then true
    else if other == Metadata then true
    else a == other
  }

  /** Implies is a preorder. */
  lemma ImpliesReflexive(a: Action)
    requires a != Uninitialized
    ensures Implies(a, a)
  {
  }

  lemma ImpliesTransitive(a: Action, b: Action, c: Action)
    requires a != Uninitialized && b != Uninitialized && c != Uninitialized
    requires Implies(a, b) && Implies(b, c)
    ensures Implies(a, c)
  {
  }

  /** ALL and OWNER are the top of the order and imply each other; METADATA is the bottom. */
  lemma ImpliesExtremes(a: Action)
    requires a != Uninitialized
    ensures Implies(All, a) && Implies(Owner, a) && Implies(a, Metadata)
    ensures Implies(a, All) <==> a == All || a == Owner
  {
  }

  /** Apart from the ALL/OWNER pair, mutual implication means equality. */
  lemma ImpliesAntisymmetric(a: Action, b: Action)
    requires a != Uninitialized && b != Uninitialized
    requires Implies(a, b) && Implies(b, a)
    ensures a == b || ((a == All || a == Owner) && (b == All || b == Owner))
  {
  }
}
