/**
 * The camel-case label normaliser `FixItemName` of Finance.py: every
 * identifier is cut into words at its upper-case characters, the words are
 * joined with single spaces and the result is title-cased.
 */
module ItemNames {
  import opened Strings

  /**
   * The reference rendering of an identifier before title-casing: the
   * identifier with one space inserted in front of every upper-case
   * character.
   */
  function Spaced(s: string): string
    decreases |s|
  {
    if s == [] then []
    else (if IsUpper(s[0]) then [' ', s[0]] else [s[0]]) + Spaced(s[1..])
  }

  /** One character is inserted per upper-case character. */
  lemma {:induction false} SpacedLength(s: string)
    ensures |Spaced(s)| == |s| + CountUpper(s)
    decreases |s|
  {
    if s != [] {
      SpacedLength(s[1..]);
    }
  }

  lemma {:induction false} SpacedAppend(a: string, b: string)
    ensures Spaced(a + b) == Spaced(a) + Spaced(b)
  {
    if a == [] {
      assert a + b == b;
    } else {
      assert (a + b)[1..] == a[1..] + b;
      SpacedAppend(a[1..], b);
    }
  }

  /** One step of the inner loop: open a new word at an upper-case character, then append it to the latest word. */
  function AppendChar(words: seq<string>, c: char): (r: seq<string>)
    requires |words| >= 1
  {
    var grown := if IsUpper(c) then words + [[]] else words;
    grown[..|grown| - 1] + [grown[|grown| - 1] + [c]]
  }

  /** The list of words the inner loop builds from `s`, starting from one empty word. */
  function Words(s: string): (w: seq<string>)
    ensures |w| >= 1
    decreases |s|
  {
    if s == [] then [[]]
    else AppendChar(Words(s[..|s| - 1]), s[|s| - 1])
  }

  /** There is one word more than there are upper-case characters. */
  lemma {:induction false} WordsCount(s: string)
    ensures |Words(s)| == CountUpper(s) + 1
    decreases |s|
  {
    if s != [] {
      var p, c := s[..|s| - 1], s[|s| - 1];
      assert p + [c] == s;
      WordsCount(p);
      CountUpperAppend(p, [c]);
      assert CountUpper([c]) == if IsUpper(c) then 1 else 0;
    }
  }

  /** A word opened at an upper-case character: that character followed by no other upper case. */
  predicate CapitalWord(w: string)
  {
    |w| >= 1 && IsUpper(w[0]) && NoUpper(w[1..])
  }

  /** The first word has no upper case; every later word is a capital word. */
  predicate CutAtCapitals(words: seq<string>)
  {
    |words| >= 1 && NoUpper(words[0]) && forall k :: 1 <= k < |words| ==> CapitalWord(words[k])
  }

  /** One step of the inner loop keeps the words cut at capitals. */
  lemma AppendCharCut(words: seq<string>, c: char)
    requires CutAtCapitals(words)
    ensures CutAtCapitals(AppendChar(words, c))
  {
    var n := |words|;
    var w := AppendChar(words, c);
    if IsUpper(c) {
      assert (words + [[]])[..n] == words;
      assert w == words + [[] + [c]];
      assert CapitalWord([c]) by { assert [c][1..] == []; }
    } else {
      var last := words[n - 1] + [c];
      assert w == words[..n - 1] + [last];
      if n == 1 {
        assert NoUpper(last);
      } else {
        assert last[1..] == words[n - 1][1..] + [c];
        assert CapitalWord(last);
        assert forall k :: 0 <= k < n - 1 ==> w[k] == words[k];
      }
    }
  }

  /**
   * The words are the identifier cut in front of every upper-case
   * character: the first word is free of upper case, every later word is a
   * single upper-case character followed by no other upper case.
   */
  lemma {:induction false} WordsShape(s: string)
    ensures CutAtCapitals(Words(s))
    decreases |s|
  {
    if s != [] {
      WordsShape(s[..|s| - 1]);
      AppendCharCut(Words(s[..|s| - 1]), s[|s| - 1]);
    }
  }

  /** Joining the words with single spaces yields exactly the spaced identifier. */
  lemma {:induction false} WordsJoin(s: string)
    ensures Join(Words(s), ' ') == Spaced(s)
    decreases |s|
  {
    if s != [] {
      var p, c := s[..|s| - 1], s[|s| - 1];
      assert p + [c] == s;
      WordsJoin(p);
      SpacedAppend(p, [c]);
      var w0 := Words(p);
      if IsUpper(c) {
        assert (w0 + [[]])[..|w0|] == w0;
        assert [] + [c] == [c];
        assert Words(s) == w0 + [[c]];
        JoinSnoc(w0, [c], ' ');
        assert Spaced([c]) == [' ', c];
      } else {
        JoinExtendLast(w0, [c], ' ');
        assert Spaced([c]) == [c];
      }
    }
  }

  /**
   * `str.title` from a state that says whether the previous character was
   * cased: a letter that follows a letter is lower-cased, any other letter
   * upper-cased; characters that are not letters are kept.
   */
  function TitleFrom(s: string, afterLetter: bool): string
    decreases |s|
  {
    if s == [] then []
    else
      var c := s[0];
      [if !IsLetter(c) then c else if afterLetter then ToLower(c) else ToUpper(c)]
        + TitleFrom(s[1..], IsLetter(c))
  }

  /** `s.title()` on ASCII text. */
  function Title(s: string): string
  {
    TitleFrom(s, false)
  }

  /**
   * Title-casing keeps the text up to case and keeps letters letters; a
   * letter ends up in upper case exactly when it starts a run of letters
   * (for the first character, when no letter came before).
   */
  lemma {:induction false} TitleFromCase(s: string, afterLetter: bool)
    ensures |TitleFrom(s, afterLetter)| == |s|
    ensures forall i :: 0 <= i < |s| ==> ToLower(TitleFrom(s, afterLetter)[i]) == ToLower(s[i])
    ensures forall i :: 0 <= i < |s| ==> (IsLetter(TitleFrom(s, afterLetter)[i]) <==> IsLetter(s[i]))
    ensures forall i :: 0 <= i < |s| && IsLetter(s[i]) ==>
              (IsUpper(TitleFrom(s, afterLetter)[i]) <==> if i == 0 then !afterLetter else !IsLetter(s[i - 1]))
    decreases |s|
  {
    if s != [] {
      TitleFromCase(s[1..], IsLetter(s[0]));
      var r := TitleFrom(s, afterLetter);
      assert r[1..] == TitleFrom(s[1..], IsLetter(s[0]));
      forall i | 1 <= i < |s|
        ensures ToLower(r[i]) == ToLower(s[i])
        ensures IsLetter(r[i]) <==> IsLetter(s[i])
        ensures IsLetter(s[i]) ==> (IsUpper(r[i]) <==> !IsLetter(s[i - 1]))
      {
        assert r[i] == r[1..][i - 1] && s[i] == s[1..][i - 1];
      }
    }
  }

  /**
   * `s.title()` is `s` up to case, with a letter in upper case exactly when
   * it is not preceded by a letter.
   */
  lemma TitleCase(s: string)
    ensures |Title(s)| == |s|
    ensures forall i :: 0 <= i < |s| ==> ToLower(Title(s)[i]) == ToLower(s[i])
    ensures forall i :: 0 <= i < |s| ==> (IsLetter(Title(s)[i]) <==> IsLetter(s[i]))
    ensures forall i :: 0 <= i < |s| && IsLetter(s[i]) ==>
              (IsUpper(Title(s)[i]) <==> i == 0 || !IsLetter(s[i - 1]))
  {
    TitleFromCase(s, false);
  }

  /** The label `FixItemName` produces for one identifier. */
  function Label(s: string): string
  {
    Title(Spaced(s))
  }

  /**
   * `FixItemName`: for every identifier, build the list of words with a
   * nested loop, join them with spaces and title-case the result.
   */
  method FixItemName(items: seq<string>) returns (res: seq<string>)
    ensures |res| == |items|
    ensures forall k :: 0 <= k < |items| ==> res[k] == Label(items[k])
  {
    res := [];
    for i := 0 to |items|
      invariant |res| == i
      invariant forall k :: 0 <= k < i ==> res[k] == Label(items[k])
    {
      var ele := items[i];
      var temp: seq<string> := [[]];
      for j := 0 to |ele|
        invariant temp == Words(ele[..j])
      {
        var c := ele[j];
        if IsUpper(c) {
          temp := temp + [[]];
        }
        temp := temp[..|temp| - 1] + [temp[|temp| - 1] + [c]];
        assert ele[..j + 1][..j] == ele[..j];
      }
      assert ele[..|ele|] == ele;
      WordsJoin(ele);
      res := res + [Title(Join(temp, ' '))];
    }
  }

  /** A label is its identifier plus one character (a space) per upper-case character. */
  lemma LabelLength(s: string)
    ensures |Label(s)| == |s| + CountUpper(s)
  {
    SpacedLength(s);
    TitleCase(Spaced(s));
  }

  /**
   * Each label is its spaced identifier up to case; a letter of the label is
   * upper case exactly when it is first or the character before it is not a
   * letter.
   */
  lemma LabelCapitalised(s: string)
    ensures |Label(s)| == |Spaced(s)|
    ensures forall i :: 0 <= i < |Label(s)| ==> ToLower(Label(s)[i]) == ToLower(Spaced(s)[i])
    ensures forall i :: 0 <= i < |Label(s)| && IsLetter(Label(s)[i]) ==>
              (IsUpper(Label(s)[i]) <==> i == 0 || !IsLetter(Label(s)[i - 1]))
  {
    TitleCase(Spaced(s));
  }

  /** Without an upper-case character the identifier is one word, labelled by title-casing it. */
  lemma {:induction false} NoUpperOneWord(s: string)
    requires NoUpper(s)
    ensures Words(s) == [s]
    ensures Label(s) == Title(s)
    decreases |s|
  {
    NoUpperSpaced(s);
    if s != [] {
      var p, c := s[..|s| - 1], s[|s| - 1];
      assert p + [c] == s;
      assert !IsUpper(c);
      assert NoUpper(p) by {
        forall i | 0 <= i < |p| ensures !IsUpper(p[i]) { assert p[i] == s[i]; }
      }
      NoUpperOneWord(p);
      assert Words(s) == [p + [c]];
    }
  }

  /** Without an upper-case character no space is inserted. */
  lemma {:induction false} NoUpperSpaced(s: string)
    requires NoUpper(s)
    ensures Spaced(s) == s
    decreases |s|
  {
    if s != [] {
      assert NoUpper(s[1..]) by {
        forall i | 0 <= i < |s| - 1 ensures !IsUpper(s[1..][i]) { assert s[1..][i] == s[i + 1]; }
      }
      NoUpperSpaced(s[1..]);
    }
  }

  /** An identifier without upper case or spaces gets a label without spaces. */
  lemma NoUpperNoSpace(s: string)
    requires NoUpper(s) && ' ' !in s
    ensures ' ' !in Label(s)
  {
    NoUpperOneWord(s);
    TitleCase(s);
    forall i | 0 <= i < |s| ensures Label(s)[i] != ' ' {
      assert ToLower(Label(s)[i]) == ToLower(s[i]);
    }
  }

  /** An identifier starting with an upper-case character keeps an empty first word, so its label starts with a space. */
  lemma {:induction false} LeadingUpperLeadingSpace(s: string)
    requires |s| >= 1 && IsUpper(s[0])
    ensures |Words(s)| >= 2 && Words(s)[0] == []
    ensures |Label(s)| >= 2 && Label(s)[0] == ' '
    decreases |s|
  {
    if |s| == 1 {
      assert s[..0] == [];
    } else {
      var p := s[..|s| - 1];
      LeadingUpperLeadingSpace(p);
    }
    assert Spaced(s)[0] == ' ';
    TitleCase(Spaced(s));
    assert ToLower(Label(s)[0]) == ' ';
  }

  /** Title-casing a concatenation continues from the state the first part leaves behind. */
  lemma {:induction false} TitleFromAppend(a: string, b: string, afterLetter: bool)
    requires a != []
    ensures TitleFrom(a + b, afterLetter) == TitleFrom(a, afterLetter) + TitleFrom(b, IsLetter(a[|a| - 1]))
    decreases |a|
  {
    assert (a + b)[0] == a[0] && (a + b)[1..] == a[1..] + b;
    if |a| > 1 {
      TitleFromAppend(a[1..], b, IsLetter(a[0]));
    }
  }

  /** A run of lower-case letters after a letter is left as it is. */
  lemma {:induction false} TitleFromLowerRun(w: string)
    requires AllLower(w)
    ensures TitleFrom(w, true) == w
    decreases |w|
  {
    if w != [] {
      TitleFromLowerRun(w[1..]);
    }
  }

  /** A word of lower-case letters gets a capital initial. */
  lemma TitleWord(c: char, w: string)
    requires IsLetter(c)
    requires AllLower(w)
    ensures TitleFrom([c] + w, false) == [ToUpper(c)] + w
  {
    assert ([c] + w)[1..] == w;
    TitleFromLowerRun(w);
  }

  predicate AllLower(w: string)
  {
    forall i :: 0 <= i < |w| ==> IsLower(w[i])
  }

  /**
   * A camel-case pair, a lower-case word followed by a capitalised one, is
   * labelled with both words capitalised and one space between them.
   */
  lemma LabelCamelPair(a: string, b: string)
    requires |a| >= 1 && AllLower(a)
    requires |b| >= 1 && IsUpper(b[0]) && AllLower(b[1..])
    ensures Label(a + b) == [ToUpper(a[0])] + a[1..] + [' '] + b
  {
    var sp := a + ([' '] + b);
    assert Spaced(a + b) == sp by {
      SpacedAppend(a, b);
      NoUpperSpaced(a);
      NoUpperSpaced(b[1..]);
      assert Spaced(b) == [' ', b[0]] + Spaced(b[1..]);
    }
    assert TitleFrom(a, false) == [ToUpper(a[0])] + a[1..] by {
      assert [a[0]] + a[1..] == a;
      TitleWord(a[0], a[1..]);
    }
    assert TitleFrom([' '] + b, true) == [' '] + b by {
      assert ([' '] + b)[1..] == b;
      assert [b[0]] + b[1..] == b;
      TitleWord(b[0], b[1..]);
    }
    TitleFromAppend(a, [' '] + b, false);
  }

  /** `totalRevenue` is labelled "Total Revenue". */
  lemma LabelTotalRevenue()
    ensures Label("totalRevenue") == "Total Revenue"
  {
    var a, b := "total", "Revenue";
    LabelCamelPair(a, b);
    assert Label(a + b) == "Total Revenue";
    assert a + b == "totalRevenue";
  }

  /** `netIncome` is labelled "Net Income". */
  lemma LabelNetIncome()
    ensures Label("netIncome") == "Net Income"
  {
    var a, b := "net", "Income";
    LabelCamelPair(a, b);
    assert Label(a + b) == "Net Income";
    assert a + b == "netIncome";
  }

  /** `eps` is labelled "Eps". */
  lemma LabelEps()
    ensures Label("eps") == "Eps"
  {
    NoUpperSpaced("eps");
    assert "e" + "ps" == "eps";
    TitleWord('e', "ps");
  }

  /** A single capitalised word is labelled with a leading space and otherwise unchanged. */
  lemma LabelCapitalWord(b: string)
    requires |b| >= 1 && IsUpper(b[0]) && AllLower(b[1..])
    ensures Label(b) == [' '] + b
  {
    NoUpperSpaced(b[1..]);
    assert Spaced(b) == [' ', b[0]] + b[1..];
    assert Spaced(b) == [' '] + b;
    assert TitleFrom([' '] + b, false) == [' '] + TitleFrom(b, false);
    assert [b[0]] + b[1..] == b;
    TitleWord(b[0], b[1..]);
  }

  /** `Ebit` is labelled " Ebit": the leading capital leaves an empty first word. */
  lemma LabelEbit()
    ensures Label("Ebit") == " Ebit"
  {
    var b := "E" + "bit";
    LabelCapitalWord(b);
    assert Label(b) == " Ebit";
    assert b == "Ebit";
  }
}
