/** lib/src/core.rs: the verdict kinds, the position index of a word, the
    tokeniser of the bundled word list and the choice of a word from it. */
module Core {
  import opened Results
  import opened Text
  import Utf8

  /** `GuessResult`: the verdict on one character of a guess. */
  datatype GuessResult = Correct | Present | Absent

  /** `CharMap`: each character of the word to the positions where it occurs. */
  type CharMap = map<char, set<nat>>

  /** The positions of `c` in `s`, counted in characters from 0. */
  function PositionsOf(s: string, c: char): set<nat> {
    set i: nat | i < |s| && s[i] == c
  }

  /** The index `char_map_from` is meant to build: a key for every character
      of `s` and nothing else, each mapped to all of its positions. */
  function PositionIndex(s: string): CharMap {
    map c | c in s :: PositionsOf(s, c)
  }

  /** Reading one more character `c` adds position `|t|` to the set of `c`,
      creating the set when `c` was not yet a key. */
  lemma PositionIndexSnoc(t: string, c: char)
    ensures PositionIndex(t + [c])
         == PositionIndex(t)[c := (if c in PositionIndex(t) then PositionIndex(t)[c] else {}) + {|t|}]
  {
    var s := t + [c];
    var lhs := PositionIndex(s);
    var rhs := PositionIndex(t)[c := (if c in PositionIndex(t) then PositionIndex(t)[c] else {}) + {|t|}];
    forall d | d in s
      ensures d in rhs && lhs[d] == rhs[d]
    {
      if d == c {
        assert PositionsOf(s, c) == PositionsOf(t, c) + {|t|};
      } else {
        assert d in t by {
          var k :| 0 <= k < |s| && s[k] == d;
          assert t[k] == d;
        }
        assert PositionsOf(s, d) == PositionsOf(t, d);
      }
    }
    assert lhs.Keys == rhs.Keys;
  }

  /** `char_map_from`: one pass over the characters of `s`, inserting each
      position into the set of its character. */
  method CharMapFrom(s: string) returns (m: CharMap)
    ensures m == PositionIndex(s)
  {
    m := map[];
    for i := 0 to |s|
      invariant m == PositionIndex(s[..i])
    {
      var c := s[i];
      PositionIndexSnoc(s[..i], c);
      assert s[..i + 1] == s[..i] + [c];
      if c in m {
        m := m[c := m[c] + {i}];
      } else {
        m := m[c := {i}];
        assert {} + {i} == {i};
      }
    }
    assert s[..|s|] == s;
  }

  /** Every position of `s` is recorded under its own character, the keys are
      exactly the characters of `s`, and every recorded position is a
      position of that character. */
  lemma PositionIndexSpec(s: string)
    ensures forall i :: 0 <= i < |s| ==> s[i] in PositionIndex(s) && i in PositionIndex(s)[s[i]]
    ensures forall c :: c in PositionIndex(s) <==> c in s
    ensures forall c, i :: c in PositionIndex(s) && i in PositionIndex(s)[c] ==> i < |s| && s[i] == c
  {
  }

  /** Position `i` is recorded under some character of `m`. */
  predicate Covered(m: CharMap, i: nat) {
    exists c :: c in m && i in m[c]
  }

  /** The position sets together cover exactly the positions `0 .. |s| - 1`. */
  lemma PositionIndexCovers(s: string)
    ensures forall i: nat :: Covered(PositionIndex(s), i) <==> i < |s|
  {
    var m := PositionIndex(s);
    forall i: nat | i < |s| ensures Covered(m, i) {
      assert s[i] in m && i in m[s[i]];
    }
  }

  lemma PositionIndexExamples()
    ensures PositionIndex("") == map[]
    ensures PositionIndex("Hello") == map['H' := {0}, 'e' := {1}, 'l' := {2, 3}, 'o' := {4}]
    ensures PositionIndex("   ") == map[' ' := {0, 1, 2}]
  {
    var h := "Hello";
    assert PositionsOf(h, 'l') == {2, 3} by {
      forall i: nat | i < |h| && h[i] == 'l' ensures i in {2, 3} { }
    }
    assert PositionsOf(h, 'H') == {0} by {
      forall i: nat | i < |h| && h[i] == 'H' ensures i == 0 { }
    }
    assert PositionsOf(h, 'e') == {1} by {
      forall i: nat | i < |h| && h[i] == 'e' ensures i == 1 { }
    }
    assert PositionsOf(h, 'o') == {4} by {
      forall i: nat | i < |h| && h[i] == 'o' ensures i == 4 { }
    }
    assert PositionIndex(h).Keys == {'H', 'e', 'l', 'o'};
    var sp := "   ";
    assert PositionsOf(sp, ' ') == {0, 1, 2} by {
      forall i: nat | i < |sp| && sp[i] == ' ' ensures i in {0, 1, 2} { }
    }
    assert PositionIndex(sp).Keys == {' '};
  }

  // ---------------------------------------------------------------------
  // words_from: the bundled word list, split into words

  /** `s.split(sep)`: the pieces between occurrences of `sep`, at least one. */
  function SplitOn(s: string, sep: char): (parts: seq<string>)
    ensures |parts| >= 1
  {
    if s == [] then [[]]
    else
      var rest := SplitOn(s[1..], sep);
      if s[0] == sep then [[]] + rest else [[s[0]] + rest[0]] + rest[1..]
  }

  /** Drops the carriage return of a `\r\n` line ending. */
  function StripCr(l: string): string {
    if |l| > 0 && l[|l| - 1] == '\r' then l[..|l| - 1] else l
  }

  /** `s.lines()`: the pieces between line feeds, each without the carriage
      return before its line feed; a final line feed ends the last line
      rather than starting an empty one. */
  function Lines(s: string): seq<string> {
    LinesOf(SplitOn(s, '\n'))
  }

  /** The lines made of the pieces between line feeds: every piece but the
      last was ended by a line feed. */
  function LinesOf(parts: seq<string>): seq<string>
    requires |parts| >= 1
  {
    if |parts| == 1 then (if parts[0] == [] then [] else [parts[0]])
    else [StripCr(parts[0])] + LinesOf(parts[1..])
  }

  /** `flat_map(|l| l.split(' '))`. */
  function SplitSpaces(lines: seq<string>): seq<string> {
    if lines == [] then [] else SplitOn(lines[0], ' ') + SplitSpaces(lines[1..])
  }

  /** `filter(|s| !s.is_empty())`. */
  function NonEmpty(tokens: seq<string>): seq<string> {
    if tokens == [] then []
    else (if tokens[0] == [] then [] else [tokens[0]]) + NonEmpty(tokens[1..])
  }

  /** The words of an already decoded text. */
  function WordsOf(text: string): seq<string> {
    NonEmpty(SplitSpaces(Lines(Lower(text))))
  }

  /** `words_from`: decode, lower-case, split into lines and then on single
      spaces, drop empty pieces, and fail when no word is left. */
  function WordsFrom(bytes: seq<Utf8.uint8>): (r: AppResult<seq<string>>)
    ensures r == Err(InvalidCharset) <==> Utf8.Decode(bytes).None?
    ensures r.Err? ==> r.error == InvalidCharset || r.error == NoWords
    ensures r.Ok? ==> |r.value| > 0
  {
    match Utf8.Decode(bytes)
    case None => Err(InvalidCharset)
    case Some(text) =>
      var words := WordsOf(text);
      if words == [] then Err(NoWords) else Ok(words)
  }

  /** The characters of `s` outside `cs`, in order. */
  function Drop(s: string, cs: set<char>): string {
    if s == [] then [] else (if s[0] in cs then [] else [s[0]]) + Drop(s[1..], cs)
  }

  function Concat(ss: seq<string>): string {
    if ss == [] then [] else ss[0] + Concat(ss[1..])
  }

  lemma {:induction false} ConcatAppend(a: seq<string>, b: seq<string>)
    ensures Concat(a + b) == Concat(a) + Concat(b)
  {
    if a == [] {
      assert a + b == b;
    } else {
      assert (a + b)[1..] == a[1..] + b;
      ConcatAppend(a[1..], b);
    }
  }

  lemma {:induction false} DropAppend(a: string, b: string, cs: set<char>)
    ensures Drop(a + b, cs) == Drop(a, cs) + Drop(b, cs)
  {
    if a == [] {
      assert a + b == b;
    } else {
      assert (a + b)[1..] == a[1..] + b;
      DropAppend(a[1..], b, cs);
    }
  }

  lemma {:induction false} DropDrop(s: string, cs: set<char>, ds: set<char>)
    ensures Drop(Drop(s, cs), ds) == Drop(s, cs + ds)
  {
    if s != [] {
      DropAppend(if s[0] in cs then [] else [s[0]], Drop(s[1..], cs), ds);
      DropDrop(s[1..], cs, ds);
    }
  }

  /** The pieces of `split` hold no separator and only characters of `s`. */
  lemma {:induction false} SplitOnParts(s: string, sep: char)
    ensures forall p :: p in SplitOn(s, sep) ==> sep !in p && forall c :: c in p ==> c in s
  {
    if s != [] {
      SplitOnParts(s[1..], sep);
      var rest := SplitOn(s[1..], sep);
      if s[0] != sep {
        assert forall c :: c in [s[0]] + rest[0] ==> c == s[0] || c in rest[0];
        assert forall p :: p in rest[1..] ==> p in rest;
      }
    }
  }

  /** Splitting loses exactly the separators: the pieces, put back together,
      are `s` without `sep`. */
  lemma {:induction false} SplitOnConcat(s: string, sep: char)
    ensures Concat(SplitOn(s, sep)) == Drop(s, {sep})
  {
    if s != [] {
      SplitOnConcat(s[1..], sep);
      var rest := SplitOn(s[1..], sep);
      assert Concat(rest) == rest[0] + Concat(rest[1..]);
      if s[0] != sep {
        assert ([[s[0]] + rest[0]] + rest[1..])[1..] == rest[1..];
      }
    }
  }

  /** Lines are pieces, possibly without their final carriage return. */
  lemma {:induction false} LinesOfWithin(parts: seq<string>, s: string)
    requires |parts| >= 1
    requires forall p :: p in parts ==> '\n' !in p && forall c :: c in p ==> c in s
    ensures forall l :: l in LinesOf(parts) ==> '\n' !in l && forall c :: c in l ==> c in s
  {
    assert parts[0] in parts;
    if |parts| > 1 {
      assert forall p :: p in parts[1..] ==> p in parts;
      LinesOfWithin(parts[1..], s);
      assert forall c :: c in StripCr(parts[0]) ==> c in parts[0];
    }
  }

  /** Lines hold no line feed and only characters of `s`. */
  lemma LinesParts(s: string)
    ensures forall l :: l in Lines(s) ==> '\n' !in l && forall c :: c in l ==> c in s
  {
    SplitOnParts(s, '\n');
    LinesOfWithin(SplitOn(s, '\n'), s);
  }

  /** Without carriage returns, the lines put back together are the pieces. */
  lemma {:induction false} LinesOfConcat(parts: seq<string>)
    requires |parts| >= 1 && forall p :: p in parts ==> '\r' !in p
    ensures Concat(LinesOf(parts)) == Concat(parts)
  {
    assert parts[0] in parts;
    if |parts| > 1 {
      assert forall p :: p in parts[1..] ==> p in parts;
      LinesOfConcat(parts[1..]);
    }
  }

  /** Without carriage returns, `lines` loses exactly the line feeds. */
  lemma LinesConcat(s: string)
    requires '\r' !in s
    ensures Concat(Lines(s)) == Drop(s, {'\n'})
  {
    SplitOnParts(s, '\n');
    SplitOnConcat(s, '\n');
    LinesOfConcat(SplitOn(s, '\n'));
  }

  /** The space-separated tokens hold no space and only characters of the lines. */
  lemma {:induction false} SplitSpacesParts(lines: seq<string>)
    ensures forall t :: t in SplitSpaces(lines) ==>
      ' ' !in t && forall c :: c in t ==> exists l :: l in lines && c in l
  {
    if lines != [] {
      SplitSpacesParts(lines[1..]);
      SplitOnParts(lines[0], ' ');
      assert lines[0] in lines;
      assert forall l :: l in lines[1..] ==> l in lines;
    }
  }

  lemma {:induction false} SplitSpacesConcat(lines: seq<string>)
    ensures Concat(SplitSpaces(lines)) == Drop(Concat(lines), {' '})
  {
    if lines != [] {
      SplitSpacesConcat(lines[1..]);
      SplitOnConcat(lines[0], ' ');
      ConcatAppend(SplitOn(lines[0], ' '), SplitSpaces(lines[1..]));
      DropAppend(lines[0], Concat(lines[1..]), {' '});
    }
  }

  lemma {:induction false} NonEmptyParts(tokens: seq<string>)
    ensures forall w :: w in NonEmpty(tokens) ==> w != [] && w in tokens
  {
    if tokens != [] {
      NonEmptyParts(tokens[1..]);
    }
  }

  lemma {:induction false} NonEmptyConcat(tokens: seq<string>)
    ensures Concat(NonEmpty(tokens)) == Concat(tokens)
  {
    if tokens != [] {
      NonEmptyConcat(tokens[1..]);
      ConcatAppend(if tokens[0] == [] then [] else [tokens[0]], NonEmpty(tokens[1..]));
    }
  }

  /** Every word is non-empty, holds no space, no line feed and no capital
      letter, and consists of characters of the lower-cased text. */
  lemma WordsOfShape(text: string)
    ensures forall w :: w in WordsOf(text) ==>
      w != [] && forall c :: c in w ==> c != ' ' && c != '\n' && !IsAsciiUpper(c) && c in Lower(text)
  {
    var low := Lower(text);
    var lines := Lines(low);
    var tokens := SplitSpaces(lines);
    LinesParts(low);
    SplitSpacesParts(lines);
    NonEmptyParts(tokens);
    LowerSpec(text);
    forall w | w in WordsOf(text)
      ensures w != [] && forall c :: c in w ==> c != ' ' && c != '\n' && !IsAsciiUpper(c) && c in low
    {
      assert w in tokens;
      forall c | c in w ensures c != ' ' && c != '\n' && !IsAsciiUpper(c) && c in low {
        var l :| l in lines && c in l;
        var k :| 0 <= k < |low| && low[k] == c;
      }
    }
  }

  /** The words keep the text's order: put back together they are the
      lower-cased text with its spaces and line feeds taken out (for text
      without carriage returns, whose handling by `lines` drops characters). */
  lemma WordsOfConcat(text: string)
    requires '\r' !in text
    ensures Concat(WordsOf(text)) == Drop(Lower(text), {' ', '\n'})
  {
    var low := Lower(text);
    LowerSpec(text);
    assert '\r' !in low by {
      forall k | 0 <= k < |low| ensures low[k] != '\r' {
        assert text[k] != '\r';
      }
    }
    LinesConcat(low);
    SplitSpacesConcat(Lines(low));
    NonEmptyConcat(SplitSpaces(Lines(low)));
    DropDrop(low, {'\n'}, {' '});
    assert {'\n'} + {' '} == {' ', '\n'};
  }

  lemma {:induction false} DropAllEmpty(s: string, cs: set<char>)
    ensures Drop(s, cs) == [] <==> forall k :: 0 <= k < |s| ==> s[k] in cs
  {
    if s != [] {
      DropAllEmpty(s[1..], cs);
      assert forall k :: 1 <= k < |s| ==> s[k] == s[1..][k - 1];
    }
  }

  /** Lower-casing turns no character into a blank and no blank into anything else. */
  lemma LowerKeepsBlanks(text: string)
    ensures |Lower(text)| == |text|
    ensures forall k :: 0 <= k < |text| ==>
      (Lower(text)[k] in {' ', '\n'} <==> text[k] in {' ', '\n'})
  {
    LowerSpec(text);
  }

  /** For text without carriage returns, the word list is empty exactly when
      every character is a space or a line feed. */
  lemma WordsOfEmpty(text: string)
    requires '\r' !in text
    ensures WordsOf(text) == [] <==> forall k :: 0 <= k < |text| ==> text[k] in {' ', '\n'}
  {
    var words := WordsOf(text);
    var low := Lower(text);
    WordsOfConcat(text);
    LowerKeepsBlanks(text);
    DropAllEmpty(low, {' ', '\n'});
    if words != [] {
      WordsOfShape(text);
      assert words[0] in words;
      assert Concat(words) == words[0] + Concat(words[1..]);
      assert Drop(low, {' ', '\n'}) != [];
    }
  }

  /** `words_from` fails with `NoWords` exactly when the input decodes to a
      text of only spaces and line feeds, and otherwise returns the words. */
  lemma WordsFromOutcome(bytes: seq<Utf8.uint8>)
    requires Utf8.Decode(bytes).Some? && '\r' !in Utf8.Decode(bytes).value
    ensures var text := Utf8.Decode(bytes).value;
      && (WordsFrom(bytes) == Err(NoWords) <==> forall k :: 0 <= k < |text| ==> text[k] in {' ', '\n'})
      && (WordsFrom(bytes).Ok? ==> WordsFrom(bytes).value == WordsOf(text))
  {
    WordsOfEmpty(Utf8.Decode(bytes).value);
  }

  /** A piece without separator, split off the front. */
  lemma {:induction false} SplitOnPiece(w: string, b: string, sep: char)
    requires sep !in w
    ensures SplitOn(w + [sep] + b, sep) == [w] + SplitOn(b, sep)
  {
    var s := w + [sep] + b;
    if w == [] {
      assert s[0] == sep && s[1..] == b;
    } else {
      assert s[1..] == w[1..] + [sep] + b;
      SplitOnPiece(w[1..], b, sep);
      assert [w[0]] + w[1..] == w;
    }
  }

  /** A string without separator is one piece. */
  lemma {:induction false} SplitOnWhole(w: string, sep: char)
    requires sep !in w
    ensures SplitOn(w, sep) == [w]
  {
    if w != [] {
      SplitOnWhole(w[1..], sep);
      assert [w[0]] + w[1..] == w;
    }
  }

  /** `split` inverts `join`: joining separator-free pieces with the
      separator and splitting again gives the pieces back. */
  lemma {:induction false} SplitOnJoin(parts: seq<string>, sep: char)
    requires |parts| >= 1 && forall p :: p in parts ==> sep !in p
    ensures SplitOn(Join(parts, [sep]), sep) == parts
  {
    if |parts| == 1 {
      SplitOnWhole(parts[0], sep);
    } else {
      SplitOnJoin(parts[1..], sep);
      assert parts[0] in parts;
      assert Join(parts, [sep]) == parts[0] + [sep] + Join(parts[1..], [sep]);
      SplitOnPiece(parts[0], Join(parts[1..], [sep]), sep);
    }
  }

  /** The characters of a join come from the separator or from a piece. */
  lemma {:induction false} JoinChars(ws: seq<string>, sep: string)
    ensures forall c :: c in Join(ws, sep) ==> c in sep || exists w :: w in ws && c in w
  {
    if |ws| == 1 {
      assert ws[0] in ws;
    } else if |ws| > 1 {
      JoinChars(ws[1..], sep);
      assert ws[0] in ws;
      assert forall w :: w in ws[1..] ==> w in ws;
    }
  }

  lemma {:induction false} NonEmptyKeeps(ws: seq<string>)
    requires forall w :: w in ws ==> w != []
    ensures NonEmpty(ws) == ws
  {
    if ws != [] {
      assert ws[0] in ws;
      assert forall w :: w in ws[1..] ==> w in ws;
      NonEmptyKeeps(ws[1..]);
    }
  }

  /** A word list in the form `words_from` produces is what tokenising it,
      written out with single spaces, gives back. */
  lemma WordsOfJoin(ws: seq<string>)
    requires forall w :: w in ws ==> w != [] && forall c :: c in w ==> c != ' ' && c != '\n' && !IsAsciiUpper(c)
    ensures WordsOf(Join(ws, " ")) == ws
  {
    var t := Join(ws, " ");
    JoinChars(ws, " ");
    forall i | 0 <= i < |t| ensures !IsAsciiUpper(t[i]) && t[i] != '\n' {
      assert t[i] in t;
    }
    LowerOfLower(t);
    if ws == [] {
      assert Lines(t) == [];
    } else {
      assert ws[0] in ws;
      assert |ws| > 1 ==> t == ws[0] + " " + Join(ws[1..], " ");
      assert t != [];
      SplitOnWhole(t, '\n');
      assert Lines(t) == [t];
      SplitOnJoin(ws, ' ');
      assert [t][1..] == [];
      assert SplitSpaces([t]) == SplitOn(t, ' ') + [];
      assert SplitSpaces(Lines(Lower(t))) == ws;
      NonEmptyKeeps(ws);
    }
  }

  /** Tokenising depends only on the lower-cased text. */
  lemma WordsOfLower(text: string)
    ensures WordsOf(Lower(text)) == WordsOf(text)
  {
    LowerIdempotent(text);
  }

  // ---------------------------------------------------------------------
  // Word boundaries: a space or a line feed ends a word

  lemma {:induction false} LowerAppend(u: string, v: string)
    ensures Lower(u + v) == Lower(u) + Lower(v)
  {
    if u == [] {
      assert u + v == v;
    } else {
      assert (u + v)[0] == u[0] && (u + v)[1..] == u[1..] + v;
      LowerAppend(u[1..], v);
    }
  }

  /** The pieces of `x` followed by those of `z`, the last piece of `x`
      running on into the first piece of `z`. */
  function Glue(p: seq<string>, q: seq<string>): seq<string>
    requires |p| >= 1 && |q| >= 1
  {
    p[..|p| - 1] + [p[|p| - 1] + q[0]] + q[1..]
  }

  /** The pieces with `h` put in front of the first one. */
  function Prepend(h: char, p: seq<string>): seq<string>
    requires |p| >= 1
  {
    [[h] + p[0]] + p[1..]
  }

  lemma {:induction false} GlueCons(a: string, p: seq<string>, q: seq<string>)
    requires |p| >= 1 && |q| >= 1
    ensures Glue([a] + p, q) == [a] + Glue(p, q)
  {
    assert ([a] + p)[..|p|] == [a] + p[..|p| - 1];
  }

  lemma {:induction false} GluePrepend(h: char, p: seq<string>, q: seq<string>)
    requires |p| >= 1 && |q| >= 1
    ensures Glue(Prepend(h, p), q) == Prepend(h, Glue(p, q))
  {
    if |p| == 1 {
      assert Glue(p, q) == [p[0] + q[0]] + q[1..];
      assert Prepend(h, p) == [[h] + p[0]];
      assert [h] + p[0] + q[0] == [h] + (p[0] + q[0]);
    } else {
      assert Glue(p, q)[0] == p[0];
      assert Glue(p, q)[1..] == p[1..|p| - 1] + [p[|p| - 1] + q[0]] + q[1..];
      assert Prepend(h, p)[..|p| - 1] == [[h] + p[0]] + p[1..|p| - 1];
    }
  }

  /** Splitting a concatenation glues the two splits. */
  lemma {:induction false} SplitOnAppend(x: string, z: string, sep: char)
    ensures SplitOn(x + z, sep) == Glue(SplitOn(x, sep), SplitOn(z, sep))
  {
    var zs := SplitOn(z, sep);
    if x == [] {
      assert x + z == z;
      assert [] + zs[0] == zs[0] && [zs[0]] + zs[1..] == zs;
      assert Glue([[]], zs) == [[] + zs[0]] + zs[1..];
    } else {
      assert (x + z)[0] == x[0] && (x + z)[1..] == x[1..] + z;
      SplitOnAppend(x[1..], z, sep);
      var xs := SplitOn(x[1..], sep);
      if x[0] != sep {
        assert SplitOn(x, sep) == Prepend(x[0], xs);
        assert SplitOn(x + z, sep) == Prepend(x[0], Glue(xs, zs));
        GluePrepend(x[0], xs, zs);
      } else {
        GlueCons([], xs, zs);
      }
    }
  }

  /** A separator between two strings separates their pieces. */
  lemma {:induction false} SplitOnSep(x: string, y: string, sep: char)
    ensures SplitOn(x + [sep] + y, sep) == SplitOn(x, sep) + SplitOn(y, sep)
  {
    var xs := SplitOn(x, sep);
    SplitOnAppend(x, [sep] + y, sep);
    assert ([sep] + y)[0] == sep && ([sep] + y)[1..] == y;
    assert SplitOn([sep] + y, sep) == [[]] + SplitOn(y, sep);
    assert x + [sep] + y == x + ([sep] + y);
    assert xs[|xs| - 1] + [] == xs[|xs| - 1];
    assert xs[..|xs| - 1] + [xs[|xs| - 1]] == xs;
  }

  lemma {:induction false} NonEmptyAppend(a: seq<string>, b: seq<string>)
    ensures NonEmpty(a + b) == NonEmpty(a) + NonEmpty(b)
  {
    if a == [] {
      assert a + b == b;
    } else {
      assert (a + b)[1..] == a[1..] + b;
      NonEmptyAppend(a[1..], b);
    }
  }

  lemma {:induction false} SplitSpacesAppend(a: seq<string>, b: seq<string>)
    ensures SplitSpaces(a + b) == SplitSpaces(a) + SplitSpaces(b)
  {
    if a == [] {
      assert a + b == b;
    } else {
      assert (a + b)[1..] == a[1..] + b;
      SplitSpacesAppend(a[1..], b);
    }
  }

  /** The words of the pieces between line feeds. */
  function PieceWords(parts: seq<string>): seq<string>
    requires |parts| >= 1
  {
    NonEmpty(SplitSpaces(LinesOf(parts)))
  }

  /** The words of a last piece are its space-separated tokens. */
  lemma {:induction false} LastPieceWords(p: string)
    ensures PieceWords([p]) == NonEmpty(SplitOn(p, ' '))
  {
    if p != [] {
      assert [p][1..] == [];
      assert LinesOf([p]) == [p];
      assert SplitSpaces([p]) == SplitOn(p, ' ') + [];
      assert SplitOn(p, ' ') + [] == SplitOn(p, ' ');
    }
  }

  /** A piece ended by a line feed gives its own words, then the rest. */
  lemma {:induction false} PieceThenPieces(p: string, q: seq<string>)
    requires |q| >= 1
    ensures PieceWords([p] + q) == NonEmpty(SplitOn(StripCr(p), ' ')) + PieceWords(q)
  {
    assert ([p] + q)[1..] == q;
    var ls := LinesOf(q);
    assert ([StripCr(p)] + ls)[1..] == ls;
    NonEmptyAppend(SplitOn(StripCr(p), ' '), SplitSpaces(ls));
  }

  /** Without carriage returns, the words of consecutive pieces are the
      words of each part in turn. */
  lemma {:induction false} PieceWordsAppend(p: seq<string>, q: seq<string>)
    requires |p| >= 1 && |q| >= 1
    requires forall s :: s in p ==> '\r' !in s
    ensures PieceWords(p + q) == PieceWords(p) + PieceWords(q)
  {
    assert p[0] in p;
    assert StripCr(p[0]) == p[0];
    if |p| == 1 {
      assert p + q == [p[0]] + q;
      PieceThenPieces(p[0], q);
      LastPieceWords(p[0]);
    } else {
      assert p + q == [p[0]] + (p[1..] + q);
      assert p == [p[0]] + p[1..];
      PieceThenPieces(p[0], p[1..] + q);
      PieceThenPieces(p[0], p[1..]);
      assert forall s :: s in p[1..] ==> s in p;
      PieceWordsAppend(p[1..], q);
    }
  }

  /** A space joining two last lines ends a word. */
  lemma {:induction false} SpaceJoinedLastLine(m: string, q0: string)
    ensures PieceWords([m + [' '] + q0]) == PieceWords([m]) + PieceWords([q0])
  {
    SplitOnSep(m, q0, ' ');
    LastPieceWords(m);
    LastPieceWords(m + [' '] + q0);
    LastPieceWords(q0);
    NonEmptyAppend(SplitOn(m, ' '), SplitOn(q0, ' '));
  }

  lemma StripCrSpaced(m: string, q0: string)
    ensures StripCr(m + [' '] + q0) == m + [' '] + StripCr(q0)
  {
    if |q0| > 0 && q0[|q0| - 1] == '\r' {
      assert (m + [' '] + q0)[..|m| + 1 + |q0| - 1] == m + [' '] + q0[..|q0| - 1];
    }
  }

  /** A space joining a last line to the first of several pieces ends a word. */
  lemma {:induction false} SpaceJoinedFirstLine(m: string, q: seq<string>)
    requires |q| >= 2
    ensures PieceWords([m + [' '] + q[0]] + q[1..]) == PieceWords([m]) + PieceWords(q)
  {
    var mm := m + [' '] + q[0];
    var r := StripCr(q[0]);
    var rest := q[1..];
    assert q == [q[0]] + rest;
    calc {
      PieceWords([mm] + rest);
      { PieceThenPieces(mm, rest); }
      NonEmpty(SplitOn(StripCr(mm), ' ')) + PieceWords(rest);
      { StripCrSpaced(m, q[0]); SplitOnSep(m, r, ' '); }
      NonEmpty(SplitOn(m, ' ') + SplitOn(r, ' ')) + PieceWords(rest);
      { NonEmptyAppend(SplitOn(m, ' '), SplitOn(r, ' ')); }
      NonEmpty(SplitOn(m, ' ')) + (NonEmpty(SplitOn(r, ' ')) + PieceWords(rest));
      { LastPieceWords(m); PieceThenPieces(q[0], rest); }
      PieceWords([m]) + PieceWords(q);
    }
  }

  /** A space joining a last line to the first piece of `q` ends a word. */
  lemma {:induction false} SpaceJoinedLine(m: string, q: seq<string>)
    requires |q| >= 1
    ensures PieceWords([m + [' '] + q[0]] + q[1..]) == PieceWords([m]) + PieceWords(q)
  {
    if |q| == 1 {
      SpaceJoinedLastLine(m, q[0]);
      assert [m + [' '] + q[0]] + q[1..] == [m + [' '] + q[0]] && q == [q[0]];
    } else {
      SpaceJoinedFirstLine(m, q);
    }
  }

  /** A space joining the last piece of `p` to the first piece of `q` ends a
      word, as a line feed would. */
  lemma {:induction false} SpaceJoinedPieces(p: seq<string>, q: seq<string>)
    requires |p| >= 1 && |q| >= 1
    requires forall s :: s in p ==> '\r' !in s
    ensures PieceWords(Glue(p, [[' '] + q[0]] + q[1..])) == PieceWords(p) + PieceWords(q)
  {
    var m := p[|p| - 1];
    var mm := m + [' '] + q[0];
    var p0 := p[..|p| - 1];
    assert ([[' '] + q[0]] + q[1..])[1..] == q[1..];
    assert m + ([' '] + q[0]) == mm;
    assert Glue(p, [[' '] + q[0]] + q[1..]) == p0 + ([mm] + q[1..]);
    SpaceJoinedLine(m, q);
    if |p| > 1 {
      assert forall s :: s in p0 ==> s in p;
      PieceWordsAppend(p0, [mm] + q[1..]);
      PieceWordsAppend(p0, [m]);
      assert p == p0 + [m];
    } else {
      assert p0 + ([mm] + q[1..]) == [mm] + q[1..] && p == [m];
    }
  }

  /** A space or a line feed ends a word: the words on either side of it are
      the words of each side alone (for a left side without carriage
      returns, which a following line feed would remove). */
  lemma {:induction false} WordsOfSplit(a: string, b: char, c: string)
    requires b == ' ' || b == '\n'
    requires '\r' !in a
    ensures WordsOf(a + [b] + c) == WordsOf(a) + WordsOf(c)
  {
    var x, y := Lower(a), Lower(c);
    LowerAppend(a + [b], c);
    LowerAppend(a, [b]);
    assert Lower([b]) == [b];
    LowerSpec(a);
    assert '\r' !in x by {
      forall k | 0 <= k < |x| ensures x[k] != '\r' {
        assert a[k] != '\r';
      }
    }
    var ps, qs := SplitOn(x, '\n'), SplitOn(y, '\n');
    SplitOnParts(x, '\n');
    if b == '\n' {
      SplitOnSep(x, y, '\n');
      PieceWordsAppend(ps, qs);
    } else {
      SplitOnAppend(x, [' '] + y, '\n');
      assert ([' '] + y)[1..] == y;
      assert SplitOn([' '] + y, '\n') == [[' '] + qs[0]] + qs[1..];
      assert x + [b] + y == x + ([' '] + y);
      SpaceJoinedPieces(ps, qs);
    }
  }

  /** Text made of spaces and line feeds only. */
  predicate Blanks(s: string) {
    forall k :: 0 <= k < |s| ==> s[k] in {' ', '\n'}
  }

  /** A non-empty word with no blank, carriage return or capital letter. */
  predicate PlainWord(w: string) {
    w != [] && forall c :: c in w ==> c != ' ' && c != '\n' && c != '\r' && !IsAsciiUpper(c)
  }

  /** Blanks before a text add no word. */
  lemma {:induction false} WordsOfBlanksThen(blanks: string, c: string)
    requires Blanks(blanks)
    ensures WordsOf(blanks + c) == WordsOf(c)
  {
    if blanks != [] {
      assert blanks + c == [] + [blanks[0]] + (blanks[1..] + c);
      assert forall k :: 0 <= k < |blanks| - 1 ==> blanks[1..][k] == blanks[k + 1];
      assert blanks[0] == ' ' || blanks[0] == '\n';
      WordsOfSplit([], blanks[0], blanks[1..] + c);
      WordsOfBlanksThen(blanks[1..], c);
      WordsOfEmpty([]);
      assert WordsOf([]) == [];
      assert WordsOf(blanks + c) == WordsOf([]) + WordsOf(blanks[1..] + c);
    } else {
      assert blanks + c == c;
    }
  }

  /** A run of blanks between two texts separates their words. */
  lemma {:induction false} WordsOfBlanksBetween(a: string, blanks: string, c: string)
    requires blanks != [] && Blanks(blanks)
    requires '\r' !in a
    ensures WordsOf(a + blanks + c) == WordsOf(a) + WordsOf(c)
  {
    assert a + blanks + c == a + [blanks[0]] + (blanks[1..] + c);
    WordsOfSplit(a, blanks[0], blanks[1..] + c);
    WordsOfBlanksThen(blanks[1..], c);
  }

  /** A single word without blanks or capitals is its own word list. */
  lemma {:induction false} OneWord(w: string)
    requires w != [] && forall c :: c in w ==> c != ' ' && c != '\n' && !IsAsciiUpper(c)
    ensures WordsOf(w) == [w]
  {
    WordsOfJoin([w]);
  }

  /** A word followed by blanks is the one word it holds. */
  lemma {:induction false} WordsOfPadded(w: string, after: string)
    requires PlainWord(w) && Blanks(after)
    ensures WordsOf(w + after) == [w]
  {
    OneWord(w);
    if after == [] {
      assert w + after == w;
    } else {
      assert w + after + [] == w + after;
      WordsOfBlanksBetween(w, after, []);
      WordsOfEmptyText();
    }
  }

  /** A word ended by blanks comes first, then the words after them. */
  lemma {:induction false} WordThenBlanks(w: string, b: string, r: string)
    requires PlainWord(w) && b != [] && Blanks(b)
    ensures WordsOf(w + b + r) == [w] + WordsOf(r)
  {
    WordsOfBlanksBetween(w, b, r);
    WordsOfPadded(w, []);
    assert w + [] == w;
  }

  /** Three words written with any runs of spaces and line feeds around and
      between them come out as those three words, in order. */
  lemma {:induction false} ThreeWordsAmidBlanks(b0: string, w1: string, b1: string, w2: string, b2: string, w3: string, b3: string)
    requires Blanks(b0) && b1 != [] && Blanks(b1) && b2 != [] && Blanks(b2) && Blanks(b3)
    requires PlainWord(w1) && PlainWord(w2) && PlainWord(w3)
    ensures WordsOf(b0 + w1 + b1 + w2 + b2 + w3 + b3) == [w1, w2, w3]
  {
    var r3 := w3 + b3;
    var r2 := w2 + b2 + r3;
    assert b0 + w1 + b1 + w2 + b2 + w3 + b3 == b0 + (w1 + b1 + r2);
    WordsOfBlanksThen(b0, w1 + b1 + r2);
    WordThenBlanks(w1, b1, r2);
    WordThenBlanks(w2, b2, r3);
    WordsOfPadded(w3, b3);
  }

  /** The test input with runs of spaces and a line feed between its words. */
  const SpacedThreeWords: string := " golem     is \n invincible "

  /** The test input with more line feeds and runs of spaces. */
  const LinedThreeWords: string := "    golem   \n    is \n invincible "

  /** The test inputs cut at the ends of their words. */
  lemma SpacedThreeWordsParts()
    ensures SpacedThreeWords == " " + "golem" + "     " + "is" + " \n " + "invincible" + " "
  {
  }

  lemma LinedThreeWordsParts()
    ensures LinedThreeWords == "    " + "golem" + "   \n    " + "is" + " \n " + "invincible" + " "
  {
  }

  lemma WordsOfSpacedThreeWords()
    ensures WordsOf(SpacedThreeWords) == ["golem", "is", "invincible"]
  {
    SpacedThreeWordsParts();
    ThreeWordsAmidBlanks(" ", "golem", "     ", "is", " \n ", "invincible", " ");
  }

  lemma WordsOfLinedThreeWords()
    ensures WordsOf(LinedThreeWords) == ["golem", "is", "invincible"]
  {
    LinedThreeWordsParts();
    ThreeWordsAmidBlanks("    ", "golem", "   \n    ", "is", " \n ", "invincible", " ");
  }

  /** Read from its UTF-8 encoding, a text gives its words, or `NoWords`. */
  lemma WordsFromEncoded(text: string)
    ensures WordsFrom(Utf8.Encode(text)) == if WordsOf(text) == [] then Err(NoWords) else Ok(WordsOf(text))
  {
    Utf8.DecodeEncode(text);
  }

  /** A one-word test input with a capital comes out lower-cased. */
  lemma WordsOfOneWord()
    ensures WordsOf("Hello") == ["hello"]
  {
    assert Lower("Hello") == "hello" by {
      LowerSpec("Hello");
    }
    WordsOfLower("Hello");
    OneWord("hello");
  }

  /** A test input of three words comes out as those words, in order. */
  lemma WordsOfThreeWords()
    ensures WordsOf("golem is invincible") == ["golem", "is", "invincible"]
  {
    assert "golem is invincible" == Join(["golem", "is", "invincible"], " ");
    WordsOfJoin(["golem", "is", "invincible"]);
  }

  /** The test input of spaces only. */
  const EightSpaces: string := "        "

  /** The test input of blank lines. */
  const BlankLines: string := "    \n     \n  "

  /** The test input of spaces only holds no word. */
  lemma WordsOfSpaces()
    ensures WordsOf(EightSpaces) == []
  {
    assert EightSpaces + [] == EightSpaces;
    WordsOfBlanksThen(EightSpaces, []);
    WordsOfEmptyText();
  }

  /** The empty test input holds no word. */
  lemma WordsOfEmptyText()
    ensures WordsOf("") == []
  {
    WordsOfEmpty("");
  }

  /** The test input of blank lines holds no word. */
  lemma WordsOfBlankLines()
    ensures WordsOf(BlankLines) == []
  {
    assert BlankLines + [] == BlankLines;
    WordsOfBlanksThen(BlankLines, []);
    WordsOfEmptyText();
  }

  /** Bytes that are not UTF-8 fail as `InvalidCharset`, before any splitting. */
  lemma WordsFromInvalidCharset()
    ensures WordsFrom([0x63, 0x6C, 0x82, 0x69, 0x70, 0x70, 0x79]) == Err(InvalidCharset)
  {
    Utf8.StrayContinuationFails();
  }

  // ---------------------------------------------------------------------
  // pick_word

  /** `pick_word` with the random index passed in: the word at `index`, or
      `NoWords` when the index is outside the list. */
  function PickWord(words: seq<string>, index: nat): (r: AppResult<string>)
    ensures r.Ok? <==> index < |words|
    ensures r.Ok? ==> r.value == words[index]
    ensures r.Err? ==> r.error == NoWords
  {
    if index < |words| then Ok(words[index]) else Err(NoWords)
  }

  /** Any index below the size of a loaded list picks a word that is
      non-empty and free of blanks. */
  lemma PickFromLoaded(bytes: seq<Utf8.uint8>, index: nat)
    requires WordsFrom(bytes).Ok? && index < |WordsFrom(bytes).value|
    ensures PickWord(WordsFrom(bytes).value, index).Ok?
    ensures var w := PickWord(WordsFrom(bytes).value, index).value;
      w != [] && ' ' !in w && '\n' !in w
  {
    var words := WordsFrom(bytes).value;
    WordsOfShape(Utf8.Decode(bytes).value);
    assert words[index] in words;
  }
}
