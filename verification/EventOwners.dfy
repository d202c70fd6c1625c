/** Whose events are whose, in terms of the fields of events and functions. */
module EventOwners {
  import opened CStrings
  import opened ContractModel
  import opened ErrorContract

  /** An event with an identity belongs to the functions of its file that have this identity, whatever the lines. */
  lemma IdentifiedIff(event: Event, owner: Function, endLine: nat)
    requires event.callerUsr != []
    ensures Belongs(event, owner, endLine) <==> event.path == owner.path && event.callerUsr == owner.usr
  {
  }

  /** So two owners of an identified event have one identity. */
  lemma OwnersShareIdentity(event: Event, f: Function, fEnd: nat, g: Function, gEnd: nat)
    requires event.callerUsr != [] && Belongs(event, f, fEnd) && Belongs(event, g, gEnd)
    ensures f.usr == g.usr == event.callerUsr && f.path == g.path
  {
    IdentifiedIff(event, f, fEnd);
    IdentifiedIff(event, g, gEnd);
  }

  /** Neither the event nor the function says more than its line. */
  predicate IsByLine(event: Event, owner: Function) {
    event.callerUsr == [] && (event.start == 0 || owner.end <= owner.start)
  }

  predicate IsByExtent(event: Event, owner: Function) {
    event.callerUsr == [] && event.start != 0 && owner.end > owner.start
  }

  lemma ByExtentIff(event: Event, owner: Function, endLine: nat)
    requires IsByExtent(event, owner)
    ensures Belongs(event, owner, endLine) <==>
      event.path == owner.path && owner.start <= event.start && event.start < owner.end
  {
  }

  /** Functions whose extents are apart do not share an event. */
  lemma ApartShareNothing(event: Event, f: Function, fEnd: nat, g: Function, gEnd: nat)
    requires IsByExtent(event, f) && IsByExtent(event, g)
    requires f.end <= g.start || g.end <= f.start
    ensures !(Belongs(event, f, fEnd) && Belongs(event, g, gEnd))
  {
    ByExtentIff(event, f, fEnd);
    ByExtentIff(event, g, gEnd);
  }

  /** No function of the file starts behind `owner` and not behind the event. */
  ghost predicate IsLastBefore(functions: seq<Function>, owner: Function, event: Event) {
    && owner.path == event.path && owner.line <= event.line
    && forall f :: f in functions && f.path == event.path && owner.line < f.line ==> event.line < f.line
  }

  /** An event known by its line alone belongs to the last function that starts at or before it, and to no other. */
  lemma ByLineIff(functions: seq<Function>, owner: Function, event: Event, sizeMax: nat)
    requires IsByLine(event, owner) && event.line < sizeMax
    ensures Belongs(event, owner, NextLine(functions, owner, sizeMax, |functions|)) <==>
      IsLastBefore(functions, owner, event)
  {
    var next := NextLine(functions, owner, sizeMax, |functions|);
    assert functions[..|functions|] == functions;
    if IsLastBefore(functions, owner, event) && next < sizeMax {
      var f :| f in functions && IsBehind(f, owner) && f.line == next;
      assert event.line < f.line;
    }
    if owner.line <= event.line < next {
      forall f | f in functions && f.path == owner.path && owner.line < f.line
        ensures f.line < sizeMax ==> next <= f.line
      {
        assert IsBehind(f, owner);
      }
    }
  }

  /** So all its owners start at one line. */
  lemma OwnersShareLine(functions: seq<Function>, f: Function, g: Function, event: Event, sizeMax: nat)
    requires f in functions && g in functions && IsByLine(event, f) && IsByLine(event, g) && event.line < sizeMax
    requires Belongs(event, f, NextLine(functions, f, sizeMax, |functions|))
    requires Belongs(event, g, NextLine(functions, g, sizeMax, |functions|))
    ensures f.line == g.line && f.path == g.path
  {
    hide Belongs, NextLine;
    ByLineIff(functions, f, event, sizeMax);
    ByLineIff(functions, g, event, sizeMax);
  }

  /** And it has one as soon as a function of its file starts at or before it. */
  lemma {:induction false} HasOwner(functions: seq<Function>, event: Event) returns (owner: Function)
    requires exists f :: f in functions && f.path == event.path && f.line <= event.line
    ensures owner in functions && IsLastBefore(functions, owner, event)
  {
    var front, last := functions[..|functions| - 1], functions[|functions| - 1];
    assert functions == front + [last];
    owner := last;
    if exists f :: f in front && f.path == event.path && f.line <= event.line {
      owner := HasOwner(front, event);
      if last.path == event.path && owner.line < last.line <= event.line {
        owner := last;
      }
    }
  }
}
