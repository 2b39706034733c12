/** The two doc-comment readers shared by both translators: `comment` (a title
    and an example value from the first paragraph) and `description` (every
    line, each cut before its first `;`). */
module Docs {
  import opened Text
  import opened Proto

  /** The example value `comment` returns: an int when strconv.Atoi accepts
      the text, a float when strconv.ParseFloat does (its value is kept as
      text), otherwise the text itself. */
  datatype Example = IntExample(value: int) | FloatExample(text: string) | TextExample(text: string)

  /** The empty string: both writers attach an example only when it differs
      from this. */
  const NoExample: Example := TextExample("")

  /** The string the loop of `comment` accumulates: a space and the trimmed
      line for every line up to the first blank one. */
  function SpacedText(lines: seq<string>): string {
    if lines == [] then ""
    else
      var t := TrimSpace(lines[0]);
      if t == "" then "" else " " + t + SpacedText(lines[1..])
  }

  /** The first paragraph: the trimmed lines before the first blank one. */
  function LeadingLines(lines: seq<string>): (r: seq<string>)
    ensures |r| <= |lines|
    ensures forall i :: 0 <= i < |r| ==> r[i] == TrimSpace(lines[i]) && r[i] != ""
    ensures |r| < |lines| ==> TrimSpace(lines[|r|]) == ""
  {
    if lines == [] then []
    else
      var t := TrimSpace(lines[0]);
      if t == "" then [] else [t] + LeadingLines(lines[1..])
  }

  /** The accumulated text is the first paragraph joined with single spaces,
      behind one leading space. */
  lemma {:induction false} SpacedTextIsJoin(lines: seq<string>)
    ensures LeadingLines(lines) == [] ==> SpacedText(lines) == ""
    ensures LeadingLines(lines) != [] ==> SpacedText(lines) == " " + Join(LeadingLines(lines), " ")
  {
    if lines != [] {
      var t := TrimSpace(lines[0]);
      if t != "" {
        var rest := LeadingLines(lines[1..]);
        SpacedTextIsJoin(lines[1..]);
        assert LeadingLines(lines) == [t] + rest;
        assert SpacedText(lines) == " " + t + SpacedText(lines[1..]);
        if rest != [] {
          assert ([t] + rest)[1..] == rest;
          assert Join([t] + rest, " ") == t + " " + Join(rest, " ");
        }
      }
    }
  }

  /** The example read from its text: an int, else a float, else the text.
      strconv.ParseFloat rejects the empty text, so `isFloat` is asked only
      about a non-empty one. */
  function ParseExample(text: string, isFloat: string -> bool): Example {
    match Atoi(text)
    case Some(n) => IntExample(n)
    case None => if text != "" && isFloat(text) then FloatExample(text) else TextExample(text)
  }

  /** The text an example is written as. */
  function ExampleText(e: Example): string {
    match e
    case IntExample(n) => Itoa(n)
    case FloatExample(t) => t
    case TextExample(t) => t
  }

  /** A parsed example is empty exactly when its text is, and a float or
      text example keeps its text as it is. */
  lemma ParseExampleText(text: string, isFloat: string -> bool)
    ensures ExampleText(ParseExample(text, isFloat)) == "" <==> text == ""
    ensures !ParseExample(text, isFloat).IntExample? ==> ExampleText(ParseExample(text, isFloat)) == text
  {
    match Atoi(text)
    case Some(n) => ItoaShape(n);
    case None =>
  }

  /** `comment`: the title is the first paragraph up to its first `;`, not
      trimmed; the example is the trimmed text between the first and the
      second `;`, read as an int, else a float, else kept as text. */
  function TitleAndExample(c: Option<Comment>, isFloat: string -> bool): (string, Example) {
    match c
    case None => ("", NoExample)
    case Some(cm) =>
      var result := SpacedText(cm.lines);
      if |result| > 1 then
        var x := Split(result[1..], ';');
        if |x| > 1 then (x[0], ParseExample(TrimSpace(x[1]), isFloat))
        else (x[0], NoExample)
      else ("", NoExample)
  }

  /** What `comment` returns, stated on the first paragraph. */
  lemma TitleAndExampleOfParagraph(c: Option<Comment>, isFloat: string -> bool)
    ensures c.None? || LeadingLines(c.value.lines) == [] ==> TitleAndExample(c, isFloat) == ("", NoExample)
    ensures c.Some? && LeadingLines(c.value.lines) != [] ==>
      var text := Join(LeadingLines(c.value.lines), " ");
      && TitleAndExample(c, isFloat).0 == Before(text, ';')
      && TitleAndExample(c, isFloat).1 ==
           (if ';' in text then ParseExample(TrimSpace(Before(After(text, ';'), ';')), isFloat) else NoExample)
  {
    if c.Some? {
      SpacedTextIsJoin(c.value.lines);
      if LeadingLines(c.value.lines) != [] {
        var text := Join(LeadingLines(c.value.lines), " ");
        assert (" " + text)[1..] == text;
        SplitHead(text, ';');
      }
    }
  }

  /** `comment` on a one-line comment whose line has a `;` and no outer
      white space. */
  lemma TitleAndExampleOfLine(c: Option<Comment>, line: string, title: string, rest: string,
                               isFloat: string -> bool, example: Example)
    requires c == Some(Comment([line]))
    requires line == title + [';'] + rest && ';' !in title && ';' !in rest
    requires !IsSpace(line[0]) && !IsSpace(line[|line| - 1])
    requires ParseExample(TrimSpace(rest), isFloat) == example
    ensures TitleAndExample(c, isFloat) == (title, example)
  {
    TrimSpaceOfTrimmed(line);
    assert LeadingLines([line]) == [line];
    TitleAndExampleOfParagraph(c, isFloat);
    BeforeAfterOfJoin(title, ';', rest);
    assert Before(rest, ';') == rest;
  }

  /** The text Itoa writes, behind a blank, reads back as the same int. */
  lemma ParseItoa(n: int, isFloat: string -> bool)
    requires MinInt64 <= n <= MaxInt64
    ensures ParseExample(TrimSpace(" " + Itoa(n)), isFloat) == IntExample(n)
  {
    ItoaShape(n);
    TrimSpaceAfterBlank(Itoa(n));
    AtoiItoa(n);
  }

  /** The only empty example `comment` returns is the absent one, which
      neither writer stores. */
  lemma ExampleEmptyOnlyWhenAbsent(c: Option<Comment>, isFloat: string -> bool)
    ensures var e := TitleAndExample(c, isFloat).1; ExampleText(e) == "" ==> e == NoExample
  {
    if c.Some? {
      var result := SpacedText(c.value.lines);
      if |result| > 1 {
        var x := Split(result[1..], ';');
        if |x| > 1 {
          ParseExampleText(TrimSpace(x[1]), isFloat);
        }
      }
    }
  }

  /** "<title>; <text>" gives the title and the example parsed from the
      text. */
  lemma TitleAndExampleOfPair(c: Option<Comment>, title: string, text: string, isFloat: string -> bool)
    requires title != [] && !IsSpace(title[0]) && ';' !in title
    requires text != [] && !IsSpace(text[0]) && !IsSpace(text[|text| - 1]) && ';' !in text
    requires c == Some(Comment([title + "; " + text]))
    ensures TitleAndExample(c, isFloat) == (title, ParseExample(text, isFloat))
  {
    var rest := " " + text;
    var line := title + "; " + text;
    assert line == title + [';'] + rest;
    assert ';' !in rest;
    assert line[0] == title[0];
    assert line[|line| - 1] == text[|text| - 1];
    TrimSpaceAfterBlank(text);
    TitleAndExampleOfLine(c, line, title, rest, isFloat, ParseExample(text, isFloat));
  }

  /** "<title>; <n>" gives the title and the int example n, for every int64
      value n written by strconv.Itoa ("Age; 42" gives ("Age", 42)). */
  lemma TitleAndIntExample(c: Option<Comment>, title: string, n: int, isFloat: string -> bool)
    requires MinInt64 <= n <= MaxInt64
    requires title != [] && !IsSpace(title[0]) && ';' !in title
    requires c == Some(Comment([title + "; " + Itoa(n)]))
    ensures TitleAndExample(c, isFloat) == (title, IntExample(n))
  {
    var text := Itoa(n);
    ItoaShape(n);
    assert ';' !in text;
    AtoiItoa(n);
    TitleAndExampleOfPair(c, title, text, isFloat);
  }

  /** A text that Atoi rejects, because of a character that is neither a
      digit nor a leading sign, is a float example when ParseFloat accepts
      it ("Age; 42.5") and a text example otherwise ("Age; adult"). */
  lemma TitleAndNonIntExample(c: Option<Comment>, title: string, text: string, i: nat, isFloat: string -> bool)
    requires title != [] && !IsSpace(title[0]) && ';' !in title
    requires text != [] && !IsSpace(text[0]) && !IsSpace(text[|text| - 1]) && ';' !in text
    requires i < |text| && !IsDigit(text[i]) && (i > 0 || (text[0] != '-' && text[0] != '+'))
    requires c == Some(Comment([title + "; " + text]))
    ensures isFloat(text) ==> TitleAndExample(c, isFloat) == (title, FloatExample(text))
    ensures !isFloat(text) ==> TitleAndExample(c, isFloat) == (title, TextExample(text))
  {
    if i > 0 {
      var digits := if text[0] == '-' || text[0] == '+' then text[1..] else text;
      assert !AllDigits(digits) by {
        if text[0] == '-' || text[0] == '+' {
          assert digits[i - 1] == text[i];
        } else {
          assert digits[i] == text[i];
        }
      }
    }
    assert Atoi(text) == None;
    TitleAndExampleOfPair(c, title, text, isFloat);
  }

  /** One line of `description`: trimmed, then cut before its first `;`. */
  function CleanLine(line: string): string {
    var t := TrimSpace(line);
    if Contains(t, ";") then Split(t, ';')[0] else t
  }

  function CleanLines(lines: seq<string>): (r: seq<string>)
    ensures |r| == |lines|
  {
    seq(|lines|, i requires 0 <= i < |lines| => CleanLine(lines[i]))
  }

  /** `description`: every comment line, blank ones included, cleaned and
      joined with newlines. */
  function Description(c: Option<Comment>): string {
    match c
    case None => ""
    case Some(cm) => Join(CleanLines(cm.lines), "\n")
  }

  lemma CleanLineIsBefore(line: string)
    ensures CleanLine(line) == Before(TrimSpace(line), ';')
    ensures forall x :: x in CleanLine(line) ==> x in line
  {
    var t := TrimSpace(line);
    ContainsChar(t, ';');
    SplitHead(t, ';');
    assert forall x :: x in Before(t, ';') ==> x in t;
  }

  /** No `;` survives in a description. */
  lemma DescriptionHasNoSemicolon(c: Option<Comment>)
    ensures ';' !in Description(c)
  {
    if c.Some? {
      var parts := CleanLines(c.value.lines);
      forall i | 0 <= i < |parts| ensures ';' !in parts[i] {
        CleanLineIsBefore(c.value.lines[i]);
      }
      JoinAvoids(parts, "\n", ';');
    }
  }

  /** A description has one line per comment line: splitting it on newlines
      gives back each line trimmed and cut before its first `;`. */
  lemma DescriptionLines(lines: seq<string>)
    requires |lines| >= 1
    requires forall i :: 0 <= i < |lines| ==> '\n' !in lines[i]
    ensures Split(Description(Some(Comment(lines))), '\n') ==
            seq(|lines|, i requires 0 <= i < |lines| => Before(TrimSpace(lines[i]), ';'))
  {
    var parts := CleanLines(lines);
    forall i | 0 <= i < |parts|
      ensures '\n' !in parts[i] && parts[i] == Before(TrimSpace(lines[i]), ';')
    {
      CleanLineIsBefore(lines[i]);
    }
    SplitJoin(parts, '\n');
  }
}
