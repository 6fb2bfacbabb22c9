/** The portrait file name of a character: colons are dropped (together
    with a space that follows one), the remaining spaces become
    underscores, and the result is wrapped as `Icon-<name>.webp`. */
module IconKey {

  /** Python's `s.replace(pat, rep)`: the occurrences of `pat`, found left
      to right without overlapping, are each replaced by `rep`. */
  function Replace(s: string, pat: string, rep: string): string
    requires pat != []
    decreases |s|
  {
    if |s| < |pat| then s
    else if StartsWith(s, pat) then rep + Replace(s[|pat|..], pat, rep)
    else [s[0]] + Replace(s[1..], pat, rep)
  }

  predicate StartsWith(s: string, pat: string)
  {
    |pat| <= |s| && s[..|pat|] == pat
  }

  /** Replacing a one-character pattern by text without that character
      leaves no occurrence of it. */
  lemma {:induction false} ReplaceRemoves(s: string, pat: string, rep: string)
    requires |pat| == 1 && pat[0] !in rep
    ensures pat[0] !in Replace(s, pat, rep)
    decreases |s|
  {
    if |s| >= |pat| {
      if s[..1] == pat {
        ReplaceRemoves(s[1..], pat, rep);
      } else {
        assert s[0] != pat[0] by { assert s[..1] == [s[0]]; }
        ReplaceRemoves(s[1..], pat, rep);
      }
    }
  }

  /** A character that neither the text nor the replacement holds does not
      appear after replacing. */
  lemma {:induction false} ReplaceKeepsOut(s: string, pat: string, rep: string, c: char)
    requires pat != []
    requires c !in s && c !in rep
    ensures c !in Replace(s, pat, rep)
    decreases |s|
  {
    if |s| >= |pat| {
      if s[..|pat|] == pat {
        ReplaceKeepsOut(s[|pat|..], pat, rep, c);
      } else {
        ReplaceKeepsOut(s[1..], pat, rep, c);
      }
    }
  }

  /** Text without the first character of the pattern is left as it is. */
  lemma {:induction false} ReplaceNothing(s: string, pat: string, rep: string)
    requires pat != [] && pat[0] !in s
    ensures Replace(s, pat, rep) == s
    decreases |s|
  {
    if |s| >= |pat| {
      assert s[..|pat|][0] == s[0];
      assert s[..|pat|] != pat;
      ReplaceNothing(s[1..], pat, rep);
      assert [s[0]] + s[1..] == s;
    }
  }

  /** Text before the first character of the pattern passes unchanged. */
  lemma {:induction false} ReplaceSkips(a: string, b: string, pat: string, rep: string)
    requires pat != [] && pat[0] !in a
    ensures Replace(a + b, pat, rep) == a + Replace(b, pat, rep)
    decreases |a|
  {
    var s := a + b;
    if a == [] {
      assert s == b;
    } else if |s| < |pat| {
      assert Replace(b, pat, rep) == b;
    } else {
      assert s[..|pat|][0] == a[0];
      assert !StartsWith(s, pat);
      assert Replace(s, pat, rep) == [a[0]] + Replace(s[1..], pat, rep);
      assert s[1..] == a[1..] + b;
      ReplaceSkips(a[1..], b, pat, rep);
      assert [a[0]] + (a[1..] + Replace(b, pat, rep)) == a + Replace(b, pat, rep);
    }
  }

  /** An occurrence at the front is replaced. */
  lemma ReplaceFront(b: string, pat: string, rep: string)
    requires pat != []
    ensures Replace(pat + b, pat, rep) == rep + Replace(b, pat, rep)
  {
    assert (pat + b)[..|pat|] == pat;
    assert (pat + b)[|pat|..] == b;
  }

  /** The character name as it appears in the portrait file name. */
  function Normalise(name: string): string
  {
    Replace(Replace(Replace(name, ": ", ""), ":", ""), " ", "_")
  }

  /** A normalised name holds neither colon nor space. */
  lemma NormaliseClean(name: string)
    ensures ':' !in Normalise(name) && ' ' !in Normalise(name)
  {
    var step1 := Replace(name, ": ", "");
    var step2 := Replace(step1, ":", "");
    ReplaceRemoves(step1, ":", "");
    ReplaceRemoves(step2, " ", "_");
    ReplaceKeepsOut(step2, " ", "_", ':');
  }

  /** A name without colon and space is its own normal form. */
  lemma NormaliseFixes(name: string)
    requires ':' !in name && ' ' !in name
    ensures Normalise(name) == name
  {
    ReplaceNothing(name, ": ", "");
    ReplaceNothing(name, ":", "");
    ReplaceNothing(name, " ", "_");
  }

  /** Normalising twice is normalising once. */
  lemma NormaliseIdempotent(name: string)
    ensures Normalise(Normalise(name)) == Normalise(name)
  {
    NormaliseClean(name);
    NormaliseFixes(Normalise(name));
  }

  /** The portrait file name of a character. */
  function IconFile(name: string): (file: string)
    ensures |file| >= 10 && file[..5] == "Icon-" && file[|file| - 5..] == ".webp"
    ensures file[5..|file| - 5] == Normalise(name)
    ensures ':' !in file && ' ' !in file
  {
    NormaliseClean(name);
    "Icon-" + Normalise(name) + ".webp"
  }

  /** A colon followed by a space vanishes, as in "Soldier: 76". */
  lemma NormaliseColonSpace(a: string, b: string)
    requires ':' !in a && ' ' !in a && ':' !in b && ' ' !in b
    ensures Normalise(a + ": " + b) == a + b
  {
    assert a + ": " + b == a + (": " + b);
    ReplaceSkips(a, ": " + b, ": ", "");
    ReplaceFront(b, ": ", "");
    ReplaceNothing(b, ": ", "");
    assert a + ("" + b) == a + b;
    assert Replace(a + ": " + b, ": ", "") == a + b;
    ReplaceNothing(a + b, ":", "");
    ReplaceNothing(a + b, " ", "_");
  }

  /** A space not after a colon becomes an underscore, as in "Junker Queen". */
  lemma NormaliseSpace(a: string, b: string)
    requires ':' !in a && ' ' !in a && ':' !in b && ' ' !in b
    ensures Normalise(a + " " + b) == a + "_" + b
  {
    var s := a + " " + b;
    assert s == a + (" " + b);
    ReplaceNothing(s, ": ", "");
    ReplaceNothing(s, ":", "");
    ReplaceSkips(a, " " + b, " ", "_");
    ReplaceFront(b, " ", "_");
    ReplaceNothing(b, " ", "_");
    assert a + ("_" + b) == a + "_" + b;
  }

  /** The portrait of "Soldier: 76". */
  lemma IconSoldier76()
    ensures IconFile("Soldier: 76") == "Icon-Soldier76.webp"
  {
    var a, b := "Soldier", "76";
    assert a + ": " + b == "Soldier: 76";
    NormaliseColonSpace(a, b);
    assert "Icon-" + (a + b) + ".webp" == "Icon-Soldier76.webp";
  }

  /** The portrait of "Junker Queen". */
  lemma IconJunkerQueen()
    ensures IconFile("Junker Queen") == "Icon-Junker_Queen.webp"
  {
    var a, b := "Junker", "Queen";
    assert a + " " + b == "Junker Queen";
    NormaliseSpace(a, b);
    assert "Icon-" + (a + "_" + b) + ".webp" == "Icon-Junker_Queen.webp";
  }
}
