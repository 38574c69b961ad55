/** lib/src/char_result.rs: one character of a guess with its verdict, and
    the rendering of a whole verdict sequence. */
module CharResults {
  import opened Results
  import opened Text
  import opened Core

  /** `CharResult`: the guessed character and the verdict on it. */
  datatype CharResult = CharResult(ch: char, result: GuessResult)

  /** `CharResult::new`. */
  function New(c: char, r: GuessResult): (x: CharResult)
    ensures x.ch == c && x.result == r
  {
    CharResult(c, r)
  }

  function CorrectAt(c: char): (x: CharResult)
    ensures x.ch == c && x.result == Correct
  {
    New(c, Correct)
  }

  function AbsentAt(c: char): (x: CharResult)
    ensures x.ch == c && x.result == Absent
  {
    New(c, Absent)
  }

  function PresentAt(c: char): (x: CharResult)
    ensures x.ch == c && x.result == Present
  {
    New(c, Present)
  }

  /** The `Debug` name of a verdict. */
  function ResultName(r: GuessResult): string {
    match r
    case Correct => "Correct"
    case Present => "Present"
    case Absent => "Absent"
  }

  /** `Display for CharResult`: `'<c>' => <verdict>`. */
  function Render(x: CharResult): string {
    "'" + [x.ch] + "' => " + ResultName(x.result)
  }

  function RenderAll(a: seq<CharResult>): seq<string> {
    if a == [] then [] else [Render(a[0])] + RenderAll(a[1..])
  }

  /** `CharResult::display`: the renderings joined by `, ` between brackets. */
  function Display(a: seq<CharResult>): string {
    "[" + Join(RenderAll(a), ", ") + "]"
  }

  // A reader of the rendering, to show that it loses nothing.

  function ParseName(s: string): Option<(GuessResult, string)> {
    if |s| >= 7 && s[..7] == "Correct" then Some((Correct, s[7..]))
    else if |s| >= 7 && s[..7] == "Present" then Some((Present, s[7..]))
    else if |s| >= 6 && s[..6] == "Absent" then Some((Absent, s[6..]))
    else None
  }

  /** Reads one rendered element off the front of `s`, with what follows it. */
  function ParseOne(s: string): (r: Option<(CharResult, string)>)
    ensures r.Some? ==> |r.value.1| < |s|
  {
    if |s| >= 7 && s[0] == '\'' && s[2..7] == "' => " then
      match ParseName(s[7..])
      case None => None
      case Some((v, rest)) => Some((CharResult(s[1], v), rest))
    else None
  }

  /** Reads one or more rendered elements separated by `, `. */
  function ParseItems(s: string): Option<seq<CharResult>>
    decreases |s|
  {
    match ParseOne(s)
    case None => None
    case Some((x, rest)) =>
      if rest == [] then Some([x])
      else if |rest| >= 2 && rest[..2] == ", " then
        match ParseItems(rest[2..])
        case None => None
        case Some(xs) => Some([x] + xs)
      else None
  }

  function Parse(s: string): Option<seq<CharResult>> {
    if |s| >= 2 && s[0] == '[' && s[|s| - 1] == ']' then
      var inner := s[1..|s| - 1];
      if inner == [] then Some([]) else ParseItems(inner)
    else None
  }

  lemma ParseOneRender(x: CharResult, t: string)
    ensures ParseOne(Render(x) + t) == Some((x, t))
  {
    var s := Render(x) + t;
    var n := ResultName(x.result);
    assert s[..7] == "'" + [x.ch] + "' => ";
    assert s[7..] == n + t;
    assert s[1] == x.ch;
    match x.result {
      case Correct =>
        assert (n + t)[..7] == "Correct" && (n + t)[7..] == t;
      case Present =>
        assert (n + t)[..7] == "Present" && (n + t)[7..] == t;
      case Absent =>
        assert (n + t)[0] == 'A';
        assert |n + t| >= 7 ==> (n + t)[..7][0] == 'A';
        assert (n + t)[..6] == "Absent" && (n + t)[6..] == t;
    }
  }

  lemma {:induction false} ParseItemsRender(a: seq<CharResult>)
    requires a != []
    ensures ParseItems(Join(RenderAll(a), ", ")) == Some(a)
  {
    var rs := RenderAll(a);
    assert rs[0] == Render(a[0]) && rs[1..] == RenderAll(a[1..]);
    if |a| == 1 {
      assert a[1..] == [] && |rs| == 1;
      assert Join(rs, ", ") == Render(a[0]) + "";
      ParseOneRender(a[0], "");
      assert [a[0]] == a;
    } else {
      var tail := Join(RenderAll(a[1..]), ", ");
      assert Join(rs, ", ") == Render(a[0]) + (", " + tail);
      ParseOneRender(a[0], ", " + tail);
      assert (", " + tail)[2..] == tail;
      ParseItemsRender(a[1..]);
      assert [a[0]] + a[1..] == a;
    }
  }

  /** The rendering of a verdict sequence can be read back: `display` loses
      neither the characters nor the verdicts nor their order. */
  lemma ParseDisplay(a: seq<CharResult>)
    ensures Parse(Display(a)) == Some(a)
  {
    var s := Display(a);
    assert s[1..|s| - 1] == Join(RenderAll(a), ", ");
    if a != [] {
      ParseItemsRender(a);
      assert Render(a[0]) != [];
    }
  }

  /** Two verdict sequences render alike only when they are equal. */
  lemma DisplayInjective(a: seq<CharResult>, b: seq<CharResult>)
    requires Display(a) == Display(b)
    ensures a == b
  {
    ParseDisplay(a);
    ParseDisplay(b);
  }

  /** The empty sequence renders as `[]`, a single element without separator. */
  lemma DisplayShort(x: CharResult)
    ensures Display([]) == "[]"
    ensures Display([x]) == "[" + Render(x) + "]"
  {
    assert [x][1..] == [];
  }

  /** Rendering is element by element, in order: appending an element appends
      `, ` and its rendering inside the brackets. */
  lemma {:induction false} JoinRenderSnoc(a: seq<CharResult>, x: CharResult)
    requires a != []
    ensures Join(RenderAll(a + [x]), ", ") == Join(RenderAll(a), ", ") + ", " + Render(x)
  {
    assert (a + [x])[0] == a[0] && (a + [x])[1..] == a[1..] + [x];
    if |a| == 1 {
      assert a[1..] == [];
    } else {
      JoinRenderSnoc(a[1..], x);
    }
  }

  lemma JoinThree(x: string, y: string, z: string, sep: string)
    ensures Join([x, y, z], sep) == x + sep + y + sep + z
  {
    assert [x, y, z][1..] == [y, z] && [y, z][1..] == [z];
    assert Join([y, z], sep) == y + sep + z;
    assert x + sep + (y + sep + z) == x + sep + y + sep + z;
  }

  // The test's expected text, cut where the three renderings meet.

  lemma ExampleTextParts()
    ensures "['a' => Correct, 'b' => Absent, 'c' => Present]"
         == "['a' => Correct, " + "'b' => Absent" + ", 'c' => Present]"
    ensures "['a' => Correct, " == "[" + "'a' => Correct" + ", "
    ensures ", 'c' => Present]" == ", " + "'c' => Present" + "]"
  {
  }

  lemma Regroup(r0: string, r1: string, r2: string, sep: string, o: string, c: string)
    ensures (o + r0 + sep) + r1 + (sep + r2 + c) == o + (r0 + sep + r1 + sep + r2) + c
  {
  }

  lemma ExampleText()
    ensures "['a' => Correct, 'b' => Absent, 'c' => Present]"
         == "[" + ("'a' => Correct" + ", " + "'b' => Absent" + ", " + "'c' => Present") + "]"
  {
    ExampleTextParts();
    Regroup("'a' => Correct", "'b' => Absent", "'c' => Present", ", ", "[", "]");
  }

  /** The rendering of the verdicts of guessing "abc" against a word holding
      'c' elsewhere and no 'b'. */
  lemma DisplayExample()
    ensures Display([CorrectAt('a'), AbsentAt('b'), PresentAt('c')])
         == "['a' => Correct, 'b' => Absent, 'c' => Present]"
  {
    var a := [CorrectAt('a'), AbsentAt('b'), PresentAt('c')];
    assert a[1..][1..][1..] == [];
    var r0, r1, r2 := "'a' => Correct", "'b' => Absent", "'c' => Present";
    assert Render(a[0]) == r0 && Render(a[1]) == r1 && Render(a[2]) == r2;
    assert RenderAll(a) == [r0, r1, r2];
    JoinThree(r0, r1, r2, ", ");
    assert Display(a) == "[" + (r0 + ", " + r1 + ", " + r2) + "]";
    ExampleText();
  }
}
