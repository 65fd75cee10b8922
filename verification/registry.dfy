/**
 The engine's algorithm registry: a map from algorithm names to handlers
 that remembers the order in which names were first registered, as a
 JavaScript Map does.
 */
module AlgorithmRegistry {
  import opened Wrappers

  /** The name argument of registerAlgorithm, which may be any JavaScript value. */
  datatype NameArg = Text(s: string) | NotAString

  datatype Outcome = Pass | Throw(message: string)

  const NameError := "Algorithm name must be a non-empty string."

  /** A name is accepted when it is a string and not the empty string. */
  predicate ValidName(name: NameArg)
  {
    name.Text? && name.s != ""
  }

  class Registry<H> {
    /** Registered names in first-registration order. */
    var names: seq<string>
    var handlers: map<string, H>

    ghost predicate Valid()
      reads this
    {
      && (forall i, j :: 0 <= i < j < |names| ==> names[i] != names[j])
      && (forall s :: s in handlers <==> s in names)
      && (forall i :: 0 <= i < |names| ==> names[i] != "")
    }

    constructor ()
      ensures Valid() && names == [] && handlers == map[]
    {
      names := [];
      handlers := map[];
    }

    /** getAlgorithm: the handler registered under the name, if any. */
    function Lookup(name: NameArg): (r: Option<H>)
      reads this
      requires Valid()
      ensures r.Some? ==> ValidName(name)
    {
      if name.Text? && name.s in handlers then Some(handlers[name.s]) else None
    }

    /** listAlgorithms: every registered name exactly once, oldest registration first. */
    function List(): (r: seq<string>)
      reads this
      requires Valid()
      ensures forall i, j :: 0 <= i < j < |r| ==> r[i] != r[j]
      ensures forall s :: s in r <==> Lookup(Text(s)).Some?
      ensures forall i :: 0 <= i < |r| ==> ValidName(Text(r[i]))
    {
      names
    }

    /**
     registerAlgorithm: reject an empty or non-string name and leave the
     registry as it was; otherwise bind the name to the handler, replacing
     an earlier handler without moving the name in the listing.
     */
    method Register(name: NameArg, handler: H) returns (outcome: Outcome)
      requires Valid()
      modifies this
      ensures Valid()
      ensures !ValidName(name) ==>
                (outcome == Throw(NameError) && names == old(names) && handlers == old(handlers))
      ensures ValidName(name) ==>
                (&& outcome == Pass
                 && Lookup(name) == Some(handler)
                 && names == (if name.s in old(handlers) then old(names) else old(names) + [name.s]))
      ensures forall other :: other != name ==> Lookup(other) == old(Lookup(other))
    {
      if !ValidName(name) {
        return Throw(NameError);
      }
      if name.s !in handlers {
        names := names + [name.s];
      }
      handlers := handlers[name.s := handler];
      return Pass;
    }
  }
}
