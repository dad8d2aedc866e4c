/** Every run of the brace formatter uses automatic references only or manual references only. */
module ArgumentDiscipline {
  import opened NumberParser
  import opened FormatArgs
  import opened BraceFormat
  import ArgList

  // References are all automatic and count up from the index state, or all manual; manual ones need
  // a state that has not yet counted.
  ghost predicate Follows(references: seq<Reference>, next: int) {
    || (next >= 0 && forall k :: 0 <= k < |references| ==> references[k] == Automatic(next + k))
    || (next <= 0 && forall k :: 0 <= k < |references| ==> references[k].Manual?)
  }

  ghost predicate InRange(references: seq<Reference>, args: seq<Arg>) {
    forall r <- references :: r.index < ArgList.MAX_ARGS && r.index < |args| && !args[r.index].kind.NONE?
  }

  // The index state after some references: counted on, or manual for good.
  ghost predicate Leads(next: int, references: seq<Reference>, after: int) {
    && Follows(references, next)
    && (references == [] ==> after == next)
    && (references != [] ==> after == if references[0].Automatic? then next + |references| else -1)
  }

  lemma LeadsOn(next: int, first: seq<Reference>, middle: int, second: seq<Reference>)
    requires Leads(next, first, middle) && Follows(second, middle)
    ensures Follows(first + second, next)
    ensures forall after :: Leads(middle, second, after) ==> Leads(next, first + second, after)
  {
    if first == [] {
      assert first + second == second;
    } else if first[0].Automatic? {
      assert middle > 0;
    } else {
      assert middle == -1;
    }
  }

  lemma TakeLeads(args: seq<Arg>, s: string, i: nat, next: int)
    requires i <= |s|
    ensures var r := Take(args, s, i, next);
            r.Ok? ==> Leads(next, [r.value.reference], r.value.next) && InRange([r.value.reference], args)
  {
  }

  lemma FieldLeads(args: seq<Arg>, render: Renderer, s: string, i: nat, next: int)
    requires i <= |s|
    ensures var r := Replace(args, render, s, i, next);
            r.Ok? ==> Leads(next, r.value.references, r.value.next) && InRange(r.value.references, args)
  {
    hide Take, ReadFlags;
    var r := Replace(args, render, s, i, next);
    if r.Ok? {
      TakeLeads(args, s, i, next);
      var taken := Take(args, s, i, next).value;
      SpecifierLeads(args, s, taken.end, taken.arg, taken.next);
      var field := ReadField(args, s, taken.end, taken.arg, taken.next).value;
      LeadsOn(next, [taken.reference], taken.next, field.references);
    }
  }

  lemma SpecifierLeads(args: seq<Arg>, s: string, i: nat, arg: Arg, next: int)
    requires i <= |s|
    ensures var r := ReadField(args, s, i, arg, next);
            r.Ok? ==> Leads(next, r.value.references, r.value.next) && InRange(r.value.references, args)
  {
    hide Take, ReadFlags;
    if At(s, i) == ':' {
      var r := ReadSpecifier(args, s, i + 1, arg, next);
      if r.Ok? {
        var d := ReadFlags(s, i + 1, arg).value;
        if At(s, d.i) == '.' {
          if At(s, d.i + 1) == '{' { TakeLeads(args, s, d.i + 2, next); }
        }
      }
    }
  }

  // In a successful run the references from any point on continue the discipline, and name arguments
  // that were passed.
  lemma {:induction false} RunLeads(args: seq<Arg>, render: Renderer, s: string, i: nat, next: int)
    requires i <= |s|
    ensures var r := Render(args, render, s, i, next);
            r.Ok? ==> Follows(r.value.references, next) && InRange(r.value.references, args)
    decreases |s| - i
  {
    hide Replace;
    var c := At(s, i);
    if Render(args, render, s, i, next).Ok? && c != '\0' {
      if c != '{' && c != '}' {
        RunLeads(args, render, s, i + 1, next);
      } else if At(s, i + 1) == c {
        RunLeads(args, render, s, i + 2, next);
      } else {
        var field := Replace(args, render, s, i + 1, next).value;
        FieldLeads(args, render, s, i + 1, next);
        RunLeads(args, render, s, field.i, field.next);
        LeadsOn(next, field.references, field.next, Render(args, render, s, field.i, field.next).value.references);
      }
    }
  }

  // The k-th reference of a successful run uses argument k, or every reference is a number.
  lemma AllAutomaticOrAllManual(args: seq<Arg>, render: Renderer, s: string)
    requires Render(args, render, s, 0, 0).Ok?
    ensures var used := Render(args, render, s, 0, 0).value.references;
            && InRange(used, args)
            && ((forall k :: 0 <= k < |used| ==> used[k] == Automatic(k)) || (forall k :: 0 <= k < |used| ==> used[k].Manual?))
  {
    RunLeads(args, render, s, 0, 0);
  }
}
