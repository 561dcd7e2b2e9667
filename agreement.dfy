/** The two scripts build the same command line. pato substitutes token by token in a
    list template; timeouter substitutes in one string and splits it on whitespace.
    For a template whose tokens are non-empty and whitespace-free, and a non-empty
    whitespace-free argument, splitting timeouter's command gives pato's invocation. */
module Agreement {
  import opened Text
  import Pato
  import Timeouter

  /** A marker in the joined template lies inside one token: it cannot straddle a space. */
  lemma {:induction false} JoinedHasMarker(template: seq<string>)
    ensures Contains(Join(template, " "), Marker) <==> Pato.HasMarker(template)
    decreases |template|
  {
    if |template| == 0 {
      ShortHasNoMarker([]);
    } else if |template| == 1 {
      assert Join(template, " ") == template[0];
    } else {
      var tail := template[1..];
      JoinedHasMarker(tail);
      assert Join(template, " ") == template[0] + [' '] + Join(tail, " ");
      ContainsAround(template[0], ' ', Join(tail, " "), Marker);
      if Pato.HasMarker(tail) {
        var i :| 0 <= i < |tail| && Contains(tail[i], Marker);
        assert template[i + 1] == tail[i];
      }
      if Pato.HasMarker(template) {
        var i :| 0 <= i < |template| && Contains(template[i], Marker);
        if i > 0 {
          assert tail[i - 1] == template[i];
        }
      }
    }
  }

  /** Replacing in the joined template is replacing in each token, then joining. */
  lemma {:induction false} JoinedReplace(template: seq<string>, arg: string)
    ensures ReplaceAll(Join(template, " "), Marker, arg) == Join(Pato.SubstituteEach(template, arg), " ")
    decreases |template|
  {
    if |template| == 0 {
      ShortHasNoMarker([]);
    } else if |template| == 1 {
      assert template[1..] == [];
    } else {
      var tail := template[1..];
      JoinedReplace(tail, arg);
      assert Join(template, " ") == template[0] + [' '] + Join(tail, " ");
      ReplaceAllAround(template[0], ' ', Join(tail, " "), Marker, arg);
    }
  }

  lemma {:induction false} ReplaceKeepsNoSpace(s: string, arg: string)
    requires Timeouter.NoSpace(s) && Timeouter.NoSpace(arg)
    ensures Timeouter.NoSpace(ReplaceAll(s, Marker, arg))
    decreases |s|
  {
    if |s| >= |Marker| {
      if s[..|Marker|] == Marker {
        ReplaceKeepsNoSpace(s[|Marker|..], arg);
        var r := ReplaceAll(s[|Marker|..], Marker, arg);
        assert forall i :: 0 <= i < |arg + r| ==> (arg + r)[i] == if i < |arg| then arg[i] else r[i - |arg|];
      } else {
        ReplaceKeepsNoSpace(s[1..], arg);
        var r := ReplaceAll(s[1..], Marker, arg);
        assert forall i :: 0 <= i < |[s[0]] + r| ==> ([s[0]] + r)[i] == if i == 0 then s[0] else r[i - 1];
      }
    }
  }

  lemma {:induction false} JoinAppend(parts: seq<string>, x: string, sep: string)
    requires |parts| >= 1
    ensures Join(parts + [x], sep) == Join(parts, sep) + sep + x
    decreases |parts|
  {
    if |parts| > 1 {
      JoinAppend(parts[1..], x, sep);
      assert (parts + [x])[1..] == parts[1..] + [x];
    }
  }

  /** Precondition shared by the lemmas below: tokens and argument that survive a
      whitespace split unchanged. */
  predicate Plain(template: seq<string>, arg: string) {
    && |template| >= 1
    && (forall i :: 0 <= i < |template| ==> template[i] != [] && Timeouter.NoSpace(template[i]))
    && arg != [] && Timeouter.NoSpace(arg)
  }

  lemma SameInvocationSubstituted(template: seq<string>, arg: string)
    requires '\\' !in arg && Plain(template, arg) && Pato.HasMarker(template)
    ensures Timeouter.Split(ReplaceAll(Join(template, " "), Marker, arg)) == Pato.SubstituteEach(template, arg)
  {
    JoinedReplace(template, arg);
    var subst := Pato.SubstituteEach(template, arg);
    forall i | 0 <= i < |subst|
      ensures subst[i] != [] && Timeouter.NoSpace(subst[i])
    {
      ReplaceKeepsNoSpace(template[i], arg);
    }
    Timeouter.SplitJoin(subst);
  }

  lemma SameInvocationAppended(template: seq<string>, arg: string)
    requires Plain(template, arg)
    ensures Timeouter.Split(Join(template, " ") + " " + arg) == template + [arg]
  {
    JoinAppend(template, arg, " ");
    var words := template + [arg];
    assert forall i :: 0 <= i < |words| ==> words[i] != [] && Timeouter.NoSpace(words[i]);
    Timeouter.SplitJoin(words);
  }

  /** Both scripts produce the same argument vector for the same template and argument
      (a template with the marker in some token is a joined string with the marker, by
      JoinedHasMarker). */
  lemma SameInvocation(template: seq<string>, arg: string)
    requires Contains(Join(template, " "), Marker) ==> '\\' !in arg
    requires |template| >= 1
    requires forall i :: 0 <= i < |template| ==> template[i] != [] && Timeouter.NoSpace(template[i])
    requires arg != [] && Timeouter.NoSpace(arg)
    ensures Timeouter.Split(Timeouter.FinalCommand(Join(template, " "), arg)) == Pato.Expand(template, arg)
  {
    JoinedHasMarker(template);
    if Pato.HasMarker(template) {
      SameInvocationSubstituted(template, arg);
    } else {
      SameInvocationAppended(template, arg);
    }
  }
}
