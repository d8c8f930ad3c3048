/**
 * Trait names in both directions: `trait_to_symbol` turns a display name
 * such as "Climbing Gear" into the Symbol `:climbing_gear`, and
 * `trait_string` turns a Symbol back into a display name.
 */
module Names {
  import opened Wrappers
  import opened Values
  import opened Text

  /** `s` contains no character of Ruby's `\s` class. */
  predicate NoSpaces(s: string) {
    forall i :: 0 <= i < |s| ==> !IsSpace(s[i])
  }

  /** `s` without its leading whitespace. */
  function DropSpaces(s: string): (r: string)
    ensures |r| <= |s|
    ensures |r| > 0 ==> !IsSpace(r[0])
    ensures |r| > 0 && !IsSpace(s[0]) ==> r == s
  {
    if |s| > 0 && IsSpace(s[0]) then DropSpaces(s[1..]) else s
  }

  /** `gsub(/\s+/, "_")`: each maximal run of whitespace becomes one underscore. */
  function SquashSpaces(s: string): (r: string)
    ensures NoSpaces(r)
    ensures |r| <= |s|
    ensures |r| == 0 <==> |s| == 0
    ensures NoSpaces(s) ==> r == s
    decreases |s|
  {
    if |s| == 0 then []
    else if IsSpace(s[0]) then "_" + SquashSpaces(DropSpaces(s[1..]))
    else [s[0]] + SquashSpaces(s[1..])
  }

  /**
   * `trait_to_symbol`: a Symbol is returned as it is, an empty String
   * gives nil, any other String has its whitespace runs replaced by an
   * underscore and is lower-cased.
   */
  function TraitToSymbol(v: Value): (r: Option<string>)
    ensures v.Sym? ==> r == Some(v.id)
    ensures v.Str? ==> (r.None? <==> |v.text| == 0)
    ensures v.Str? && r.Some? ==> |r.value| > 0 && NoSpaces(r.value) && NoUpper(r.value)
    ensures v.Str? && |v.text| > 0 && NoSpaces(v.text) ==> r == Some(Downcase(v.text))
  {
    match v
    case Sym(id) => Some(id)
    case Str(text) => if |text| == 0 then None else Some(Downcase(SquashSpaces(text)))
  }

  /** Normalising a name that is already normal leaves it unchanged. */
  lemma {:induction false} TraitToSymbolIdempotent(text: string)
    requires TraitToSymbol(Str(text)).Some?
    ensures TraitToSymbol(Str(TraitToSymbol(Str(text)).value)) == TraitToSymbol(Str(text))
  {
    var s := TraitToSymbol(Str(text)).value;
    assert SquashSpaces(s) == s;
    assert Downcase(s) == s;
  }

  /** A separator of `TraitSplitRE`, `/\s+|_/`: whitespace or an underscore. */
  predicate IsSeparator(c: char) {
    IsSpace(c) || c == '_'
  }

  /** `s` contains no separator. */
  predicate NoSeparators(s: string) {
    forall i :: 0 <= i < |s| ==> !IsSeparator(s[i])
  }

  /** Where the leftmost match of `TraitSplitRE` starts, or `|s|` when there is none. */
  function FirstSeparator(s: string): (i: nat)
    ensures i <= |s|
    ensures NoSeparators(s[..i])
    ensures i < |s| ==> IsSeparator(s[i])
  {
    if |s| == 0 || IsSeparator(s[0]) then 0
    else
      var j := FirstSeparator(s[1..]);
      assert s[..j + 1] == [s[0]] + s[1..][..j];
      1 + j
  }

  /**
   * The fields of `s` between matches of `TraitSplitRE`, trailing empty
   * fields included. A match is a maximal whitespace run or one underscore.
   */
  function Fields(s: string): (r: seq<string>)
    ensures |r| >= 1
    ensures forall k :: 0 <= k < |r| ==> NoSeparators(r[k])
    decreases |s|
  {
    var i := FirstSeparator(s);
    if i == |s| then
      assert s[..i] == s;
      [s]
    else
      [s[..i]] + Fields(if s[i] == '_' then s[i + 1..] else DropSpaces(s[i + 1..]))
  }

  /** `fs` without its trailing empty strings. */
  function DropTrailingEmpty(fs: seq<string>): (r: seq<string>)
    ensures |r| <= |fs| && r == fs[..|r|]
    ensures |r| > 0 ==> r[|r| - 1] != []
    ensures forall k :: |r| <= k < |fs| ==> fs[k] == []
  {
    if |fs| > 0 && fs[|fs| - 1] == [] then DropTrailingEmpty(fs[..|fs| - 1]) else fs
  }

  /** `String#split(TraitSplitRE)`: Ruby drops trailing empty fields and keeps leading ones. */
  function Split(s: string): (r: seq<string>)
    ensures |r| <= |Fields(s)| && r == Fields(s)[..|r|]
    ensures |r| > 0 ==> r[|r| - 1] != []
    ensures forall k :: |r| <= k < |Fields(s)| ==> Fields(s)[k] == []
  {
    DropTrailingEmpty(Fields(s))
  }

  /** `Array#join(sep)`. */
  function JoinWith(ws: seq<string>, sep: char): string {
    if |ws| == 0 then []
    else if |ws| == 1 then ws[0]
    else ws[0] + [sep] + JoinWith(ws[1..], sep)
  }

  /** Each word capitalized. */
  function CapitalizeAll(ws: seq<string>): (r: seq<string>)
    ensures |r| == |ws|
    ensures forall k :: 0 <= k < |ws| ==> r[k] == Capitalize(ws[k])
  {
    seq(|ws|, k requires 0 <= k < |ws| => Capitalize(ws[k]))
  }

  /**
   * `trait_string`: the name split at whitespace runs and underscores,
   * each word capitalized, the words joined with single spaces.
   */
  function TraitString(v: Value): (r: string)
    ensures forall i :: 0 <= i < |r| ==> r[i] != '_'
  {
    var words := CapitalizeAll(Split(v.ToS()));
    JoinAvoids(words, ' ', '_');
    JoinWith(words, ' ')
  }

  /** Joining words that avoid `c` with a separator other than `c` avoids `c`. */
  lemma {:induction false} JoinAvoids(ws: seq<string>, sep: char, c: char)
    requires sep != c
    requires forall k :: 0 <= k < |ws| ==> forall i :: 0 <= i < |ws[k]| ==> ws[k][i] != c
    ensures forall i :: 0 <= i < |JoinWith(ws, sep)| ==> JoinWith(ws, sep)[i] != c
  {
    if |ws| > 1 {
      JoinAvoids(ws[1..], sep, c);
    }
  }

  /** Every character of `s` is a separator. */
  predicate AllSeparators(s: string) {
    forall i :: 0 <= i < |s| ==> IsSeparator(s[i])
  }

  /** Dropping leading whitespace keeps a string made of separators made of separators, and back. */
  lemma {:induction false} DropSpacesSeparators(t: string)
    ensures AllSeparators(DropSpaces(t)) <==> AllSeparators(t)
    decreases |t|
  {
    if |t| > 0 && IsSpace(t[0]) {
      DropSpacesSeparators(t[1..]);
      assert t == [t[0]] + t[1..];
    }
  }

  /** All fields of the list are empty strings. */
  predicate AllEmpty(fs: seq<string>) {
    forall k :: 0 <= k < |fs| ==> fs[k] == []
  }

  /** Every field is empty exactly when the string is made of separators only. */
  lemma {:induction false} FieldsEmpty(s: string)
    ensures AllEmpty(Fields(s)) <==> AllSeparators(s)
    decreases |s|
  {
    var i := FirstSeparator(s);
    if i == |s| {
      assert Fields(s) == [s];
      if |s| > 0 {
        assert !IsSeparator(s[0]) by { assert s[..i][0] == s[0]; }
        assert Fields(s)[0] != [];
      }
    } else {
      var rest := if s[i] == '_' then s[i + 1..] else DropSpaces(s[i + 1..]);
      FieldsEmpty(rest);
      DropSpacesSeparators(s[i + 1..]);
      var fs := Fields(s);
      assert fs == [s[..i]] + Fields(rest);
      assert fs[1..] == Fields(rest);
      if i == 0 {
        assert AllEmpty(fs) <==> AllEmpty(fs[1..]) by {
          assert fs[0] == [];
          if AllEmpty(fs[1..]) {
            forall k | 0 <= k < |fs|
              ensures fs[k] == []
            {
              if k > 0 {
                assert fs[k] == fs[1..][k - 1];
              }
            }
          }
        }
        assert AllSeparators(s) <==> AllSeparators(s[1..]) by {
          if AllSeparators(s[1..]) {
            forall j | 0 <= j < |s|
              ensures IsSeparator(s[j])
            {
              if j > 0 {
                assert s[j] == s[1..][j - 1];
              }
            }
          }
        }
      } else {
        assert !IsSeparator(s[0]) by { assert s[..i][0] == s[0]; }
        assert |fs[0]| > 0;
      }
    }
  }

  /** Splitting gives no words exactly when the string is made of separators only. */
  lemma SplitEmpty(s: string)
    ensures |Split(s)| == 0 <==> AllSeparators(s)
  {
    var fs := Fields(s);
    FieldsEmpty(s);
    var sp := Split(s);
    if |sp| > 0 {
      assert sp[|sp| - 1] == fs[|sp| - 1];
    }
  }

  /** A join is empty exactly when it joins no word, or a single empty word. */
  lemma JoinEmpty(ws: seq<string>, sep: char)
    ensures |JoinWith(ws, sep)| == 0 <==> |ws| == 0 || (|ws| == 1 && ws[0] == [])
  {
    if |ws| > 1 {
      assert |JoinWith(ws, sep)| >= 1;
    }
  }

  /**
   * `trait_string` gives the empty string exactly when the name is made of
   * whitespace and underscores only.
   */
  lemma TraitStringEmpty(v: Value)
    ensures |TraitString(v)| == 0 <==> AllSeparators(v.ToS())
  {
    var sp := Split(v.ToS());
    var words := CapitalizeAll(sp);
    SplitEmpty(v.ToS());
    JoinEmpty(words, ' ');
    if |sp| == 1 {
      assert sp[0] != [];
      assert |words[0]| == |sp[0]|;
    }
  }

  /** A segment of an identifier: non-empty, lower-case, no whitespace or underscore. */
  predicate Word(w: string) {
    |w| > 0 && NoSeparators(w) && NoUpper(w)
  }

  /** The first separator after a separator-free word is the underscore that follows it. */
  lemma FirstSeparatorAfterWord(w: string, rest: string)
    requires NoSeparators(w)
    ensures FirstSeparator(w + ['_'] + rest) == |w|
  {
    var s := w + ['_'] + rest;
    assert s[|w|] == '_';
    assert s[..|w|] == w;
  }

  /** Splitting words joined with single underscores gives the words back. */
  lemma {:induction false} FieldsOfJoin(ws: seq<string>)
    requires |ws| > 0
    requires forall k :: 0 <= k < |ws| ==> NoSeparators(ws[k])
    ensures Fields(JoinWith(ws, '_')) == ws
  {
    if |ws| == 1 {
      FieldsOfWord(ws[0]);
    } else {
      FieldsAfterUnderscore(ws[0], JoinWith(ws[1..], '_'));
      FieldsOfJoin(ws[1..]);
      assert ws == [ws[0]] + ws[1..];
    }
  }

  /** A join of non-empty words starts with the first word's first character. */
  lemma {:induction false} JoinHead(ws: seq<string>, sep: char)
    requires |ws| > 0 && |ws[0]| > 0
    ensures |JoinWith(ws, sep)| > 0 && JoinWith(ws, sep)[0] == ws[0][0]
  {
    if |ws| > 1 {
      assert JoinWith(ws, sep) == ws[0] + ([sep] + JoinWith(ws[1..], sep));
    }
  }

  /** A single space followed by a non-space becomes a single underscore. */
  lemma SquashOneSpace(rest: string)
    requires |rest| > 0 && !IsSpace(rest[0])
    ensures SquashSpaces([' '] + rest) == "_" + SquashSpaces(rest)
  {
    assert ([' '] + rest)[1..] == rest;
    assert DropSpaces(rest) == rest;
  }

  /** The whitespace-to-underscore step turns single-space joins into underscore joins. */
  lemma {:induction false} SquashJoin(ws: seq<string>)
    requires forall k :: 0 <= k < |ws| ==> |ws[k]| > 0 && NoSpaces(ws[k])
    ensures SquashSpaces(JoinWith(ws, ' ')) == JoinWith(ws, '_')
  {
    if |ws| > 1 {
      JoinHead(ws[1..], ' ');
      SquashJoinStep(ws[0], JoinWith(ws[1..], ' '));
      SquashJoin(ws[1..]);
    } else if |ws| == 1 {
      assert SquashSpaces(ws[0]) == ws[0];
    }
  }

  /** One join step: a word, a single space, then text that starts with a non-space. */
  lemma SquashJoinStep(w: string, rest: string)
    requires NoSpaces(w)
    requires |rest| > 0 && !IsSpace(rest[0])
    ensures SquashSpaces(w + [' '] + rest) == w + ['_'] + SquashSpaces(rest)
  {
    assert w + [' '] + rest == w + ([' '] + rest);
    SquashOneSpace(rest);
    assert SquashSpaces([' '] + rest) == "_" + SquashSpaces(rest);
    SquashAfterWord(w, [' '] + rest);
  }

  /** A leading word without whitespace passes through the squash unchanged. */
  lemma {:induction false} SquashAfterWord(w: string, s: string)
    requires NoSpaces(w)
    ensures SquashSpaces(w + s) == w + SquashSpaces(s)
    decreases |w|
  {
    if |w| > 0 {
      assert (w + s)[1..] == w[1..] + s;
      SquashAfterWord(w[1..], s);
      assert w == [w[0]] + w[1..];
    } else {
      assert w + s == s;
    }
  }

  /** `s` is made of whitespace only. */
  predicate AllSpaces(s: string) {
    forall i :: 0 <= i < |s| ==> IsSpace(s[i])
  }

  /** `t` is empty or starts with a character that is not whitespace, so a run before it is maximal. */
  predicate RunEnds(t: string) {
    |t| == 0 || !IsSpace(t[0])
  }

  /** Leading whitespace before a maximal run's end is dropped entirely. */
  lemma {:induction false} DropSpacesRun(run: string, t: string)
    requires AllSpaces(run) && RunEnds(t)
    ensures DropSpaces(run + t) == t
    decreases |run|
  {
    if |run| > 0 {
      assert (run + t)[1..] == run[1..] + t;
      DropSpacesRun(run[1..], t);
    } else {
      assert run + t == t;
    }
  }

  /** A maximal whitespace run, however long, becomes exactly one underscore. */
  lemma SquashRun(run: string, t: string)
    requires |run| > 0 && AllSpaces(run) && RunEnds(t)
    ensures SquashSpaces(run + t) == "_" + SquashSpaces(t)
  {
    assert (run + t)[0] == run[0];
    assert (run + t)[1..] == run[1..] + t;
    DropSpacesRun(run[1..], t);
  }

  /** `trait_to_symbol` keeps a leading word, lower-cased, and turns the run after it into one underscore. */
  lemma TraitToSymbolRun(w: string, run: string, t: string)
    requires NoSpaces(w) && |run| > 0 && AllSpaces(run) && RunEnds(t)
    ensures TraitToSymbol(Str(w + run + t)) == Some(Downcase(w) + "_" + Downcase(SquashSpaces(t)))
  {
    SquashWordRun(w, run, t);
    LowerJoinStep(w, SquashSpaces(t));
  }

  /** A word, a maximal whitespace run and the rest squash to the word, one underscore and the squashed rest. */
  lemma SquashWordRun(w: string, run: string, t: string)
    requires NoSpaces(w) && |run| > 0 && AllSpaces(run) && RunEnds(t)
    ensures SquashSpaces(w + run + t) == w + "_" + SquashSpaces(t)
  {
    assert w + run + t == w + (run + t);
    SquashAfterWord(w, run + t);
    SquashRun(run, t);
  }

  /** A separator-free string is a single field. */
  lemma FieldsOfWord(w: string)
    requires NoSeparators(w)
    ensures Fields(w) == [w]
  {
    assert FirstSeparator(w) == |w|;
  }

  /** An underscore ends the field before it; each underscore is a split point of its own. */
  lemma FieldsAfterUnderscore(w: string, t: string)
    requires NoSeparators(w)
    ensures Fields(w + "_" + t) == [w] + Fields(t)
  {
    var s := w + "_" + t;
    FirstSeparatorAfterWord(w, t);
    assert s[..|w|] == w;
    assert s[|w| + 1..] == t;
  }

  /** A maximal whitespace run, however long, is one split point. */
  lemma FieldsAfterRun(w: string, run: string, t: string)
    requires NoSeparators(w) && |run| > 0 && AllSpaces(run) && RunEnds(t)
    ensures Fields(w + run + t) == [w] + Fields(t)
  {
    var s := w + run + t;
    assert s[|w|] == run[0];
    assert s[..|w|] == w;
    FirstSeparatorAt(s, |w|);
    assert s[|w| + 1..] == run[1..] + t;
    DropSpacesRun(run[1..], t);
  }

  /** A separator preceded only by non-separators is the first one. */
  lemma FirstSeparatorAt(s: string, n: nat)
    requires n < |s| && NoSeparators(s[..n]) && IsSeparator(s[n])
    ensures FirstSeparator(s) == n
  {
  }

  /**
   * `trait_string` of separator-free fields joined by underscores, the last
   * one non-empty, is the capitalized fields joined by single spaces; empty
   * fields (doubled or leading underscores) become extra spaces.
   */
  lemma TraitStringOfFields(ws: seq<string>)
    requires |ws| > 0 && ws[|ws| - 1] != []
    requires forall k :: 0 <= k < |ws| ==> NoSeparators(ws[k])
    ensures TraitString(Sym(JoinWith(ws, '_'))) == JoinWith(CapitalizeAll(ws), ' ')
  {
    var v := Sym(JoinWith(ws, '_'));
    FieldsOfJoin(ws);
    assert Split(v.ToS()) == ws by {
      assert Fields(v.ToS()) == ws;
      assert DropTrailingEmpty(ws) == ws;
    }
  }

  /** `trait_string` of an identifier joins its capitalized segments with spaces. */
  lemma TraitStringOfIdentifier(ws: seq<string>)
    requires |ws| > 0
    requires forall k :: 0 <= k < |ws| ==> Word(ws[k])
    ensures TraitString(Sym(JoinWith(ws, '_'))) == JoinWith(CapitalizeAll(ws), ' ')
  {
    TraitStringOfFields(ws);
  }

  /**
   * `trait_string` of any underscore join of separator-free fields: the
   * trailing empty fields (trailing underscores) are dropped, and the rest are
   * capitalized and joined by single spaces.
   */
  lemma TraitStringOfUnderscores(v: Value, ws: seq<string>)
    requires |ws| > 0 && v.ToS() == JoinWith(ws, '_')
    requires forall k :: 0 <= k < |ws| ==> NoSeparators(ws[k])
    ensures TraitString(v) == JoinWith(CapitalizeAll(DropTrailingEmpty(ws)), ' ')
  {
    FieldsOfJoin(ws);
  }

  /** Splitting non-empty separator-free words joined by single spaces gives the words back. */
  lemma {:induction false} FieldsOfSpaceJoin(ws: seq<string>)
    requires |ws| > 0
    requires forall k :: 0 <= k < |ws| ==> |ws[k]| > 0 && NoSeparators(ws[k])
    ensures Fields(JoinWith(ws, ' ')) == ws
  {
    if |ws| == 1 {
      FieldsOfWord(ws[0]);
    } else {
      var rest := JoinWith(ws[1..], ' ');
      JoinHead(ws[1..], ' ');
      assert !IsSeparator(ws[1][0]);
      FieldsAfterRun(ws[0], " ", rest);
      FieldsOfSpaceJoin(ws[1..]);
      assert ws == [ws[0]] + ws[1..];
    }
  }

  /**
   * `trait_string` of a display name such as "battle bunny": its words
   * capitalized and joined again by single spaces.
   */
  lemma TraitStringOfSpaceJoin(v: Value, ws: seq<string>)
    requires |ws| > 0 && v.ToS() == JoinWith(ws, ' ')
    requires forall k :: 0 <= k < |ws| ==> |ws[k]| > 0 && NoSeparators(ws[k])
    ensures TraitString(v) == JoinWith(CapitalizeAll(ws), ' ')
  {
    FieldsOfSpaceJoin(ws);
    assert DropTrailingEmpty(ws) == ws;
  }

  /** A word of a display name: separator-free, upper-case first and lower-case after. */
  predicate TitleWord(w: string) {
    |w| > 0 && NoSeparators(w) && !IsLower(w[0]) && NoUpper(w[1..])
  }

  /** A display name in the form `trait_string` produces is its own display name. */
  lemma TraitStringKeepsTitle(v: Value, ws: seq<string>)
    requires |ws| > 0 && v.ToS() == JoinWith(ws, ' ')
    requires forall k :: 0 <= k < |ws| ==> TitleWord(ws[k])
    ensures TraitString(v) == v.ToS()
  {
    TraitStringOfSpaceJoin(v, ws);
    forall k | 0 <= k < |ws|
      ensures CapitalizeAll(ws)[k] == ws[k]
    {
      CapitalizeKeeps(ws[k]);
    }
    assert CapitalizeAll(ws) == ws;
  }

  /** "Battle Bunny" is two title words joined by one space. */
  lemma BattleBunnyWords()
    ensures JoinWith(["Battle", "Bunny"], ' ') == "Battle Bunny"
    ensures TitleWord("Battle") && TitleWord("Bunny")
  {
  }

  /** The Edge the demonstration script adds keeps its name: "Battle Bunny". */
  lemma BattleBunnyDisplayName()
    ensures TraitString(Str("Battle Bunny")) == "Battle Bunny"
  {
    BattleBunnyWords();
    var ws := ["Battle", "Bunny"];
    assert TitleWord(ws[0]) && TitleWord(ws[1]);
    TraitStringKeepsTitle(Str("Battle Bunny"), ws);
  }

  /** A trailing underscore leaves no trailing field: `trait_string(:a_)` is "A". */
  lemma TrailingUnderscoreDropped()
    ensures TraitString(Sym("a_")) == "A"
  {
    var ws := ["a", ""];
    TrailingUnderscoreWords();
    TraitStringOfUnderscores(Sym("a_"), ws);
  }

  /** The pieces of `:a_`: the fields "a" and "", of which only "a" survives the split. */
  lemma TrailingUnderscoreWords()
    ensures JoinWith(["a", ""], '_') == "a_"
    ensures DropTrailingEmpty(["a", ""]) == ["a"]
    ensures JoinWith(CapitalizeAll(["a"]), ' ') == "A"
  {
    assert ["a", ""][..1] == ["a"];
    assert Capitalize("a") == "A";
  }

  /** Lower-casing the underscore join of the capitalized segments gives the identifier back. */
  lemma {:induction false} LowerCapitalized(ws: seq<string>)
    requires forall k :: 0 <= k < |ws| ==> Word(ws[k])
    ensures Downcase(JoinWith(CapitalizeAll(ws), '_')) == JoinWith(ws, '_')
  {
    var caps := CapitalizeAll(ws);
    if |ws| > 0 {
      LowerCapitalizedWord(ws[0]);
    }
    if |ws| > 1 {
      assert caps[1..] == CapitalizeAll(ws[1..]);
      LowerCapitalized(ws[1..]);
      LowerJoinStep(caps[0], JoinWith(caps[1..], '_'));
    }
  }

  /** A capitalized word lower-cases back to itself. */
  lemma LowerCapitalizedWord(w: string)
    requires Word(w)
    ensures Downcase(Capitalize(w)) == w
  {
    assert Downcase(Capitalize(w)) == Downcase(w);
  }

  /** Lower-casing distributes over one underscore join step. */
  lemma LowerJoinStep(c: string, tail: string)
    ensures Downcase(c + ['_'] + tail) == Downcase(c) + ['_'] + Downcase(tail)
  {
    DowncaseAppend(c, ['_'] + tail);
    DowncaseAppend(['_'], tail);
    assert c + ['_'] + tail == c + (['_'] + tail);
  }

  /**
   * The name round trip: a lower-case identifier whose underscore-separated
   * segments are non-empty comes back unchanged from `trait_string`
   * followed by `trait_to_symbol`.
   */
  lemma {:induction false} NameRoundTrip(ws: seq<string>)
    requires |ws| > 0
    requires forall k :: 0 <= k < |ws| ==> Word(ws[k])
    ensures TraitToSymbol(Str(TraitString(Sym(JoinWith(ws, '_'))))) == Some(JoinWith(ws, '_'))
  {
    var caps := CapitalizeAll(ws);
    TraitStringOfIdentifier(ws);
    assert forall k :: 0 <= k < |caps| ==> |caps[k]| > 0 && NoSpaces(caps[k]) by {
      forall k | 0 <= k < |caps|
        ensures |caps[k]| > 0 && NoSpaces(caps[k])
      {
        assert caps[k] == Capitalize(ws[k]);
      }
    }
    JoinHead(caps, ' ');
    SquashJoin(caps);
    LowerCapitalized(ws);
  }
}
