/** The field tokenizer of the debug NMEA parsers: the first '*' counts as a comma, and
    every comma ends a field. */
module NmeaTokenizer {
  import opened Sequences

  const MINSIZE: nat := 6
  const MAXSIZE: nat := 4096

  /** The gate that all parsers share. */
  predicate IsDebug(text: string) {
    MINSIZE <= |text| <= MAXSIZE && text[..4] == "$PQW"
  }

  /** The first place of c in s, or |s|. */
  function IndexOf(s: string, c: char): (i: nat)
    ensures i <= |s|
  {
    if s == "" || s[0] == c then 0 else 1 + IndexOf(s[1..], c)
  }

  lemma {:induction false} IndexIsFirst(s: string, c: char)
    ensures var i := IndexOf(s, c); c !in s[..i] && (i < |s| ==> s[i] == c)
  {
    if s != "" && s[0] != c {
      IndexIsFirst(s[1..], c);
      var i := IndexOf(s[1..], c);
      assert s[..1 + i] == [s[0]] + s[1..][..i];
    }
  }

  /** The text that is cut at commas. */
  function StarAsComma(text: string): string {
    var i := IndexOf(text, '*');
    if i == |text| then text else text[i := ',']
  }

  /** The pieces of s that a comma ends. */
  function Cut(s: string): seq<string>
    decreases |s|
  {
    var i := IndexOf(s, ',');
    if i == |s| then [] else [s[..i]] + Cut(s[i+1..])
  }

  /** No fields unless the text passes the gate and has a '*'. */
  function Fields(text: string): seq<string> {
    if IsDebug(text) && '*' in text then Cut(StarAsComma(text)) else []
  }

  /** The parser constructor. */
  method Tokenize(text: string) returns (fields: seq<string>)
    ensures fields == Fields(text)
  {
    fields := [];
    if !IsDebug(text) {
      return;
    }
    var index := IndexOf(text, '*');
    IndexIsFirst(text, '*');
    if index == |text| {
      assert text[..index] == text;
      return;
    }
    assert text[index] in text;
    var parser := text[index := ','];
    ghost var all := Cut(parser);
    Unit(all);
    while true
      invariant fields + Cut(parser) == all
      decreases |parser|
    {
      index := IndexOf(parser, ',');
      if index == |parser| {
        break;
      }
      var str := parser[..index];
      Assoc(fields, [str], Cut(parser[index+1..]));
      parser := parser[index+1..];
      fields := fields + [str];
    }
    Unit(fields);
  }

  // ---------- Cutting and joining are inverse ----------

  function Joined(fields: seq<string>): string {
    if fields == [] then "" else fields[0] + "," + Joined(fields[1..])
  }

  ghost predicate Free(fields: seq<string>, c: char) {
    fields != [] ==> c !in fields[0] && Free(fields[1..], c)
  }

  lemma {:induction false} IndexIs(before: string, c: char, after: string)
    requires c !in before && (after == "" || after[0] == c)
    ensures IndexOf(before + after, c) == |before|
  {
    if before == "" {
      assert before + after == after;
    } else {
      assert (before + after)[1..] == before[1..] + after;
      IndexIs(before[1..], c, after);
    }
  }

  /** What follows the last comma. */
  function Rest(s: string): string
    decreases |s|
  {
    var i := IndexOf(s, ',');
    if i == |s| then s else Rest(s[i+1..])
  }

  lemma JoinedCons(f: string, fields: seq<string>)
    ensures Joined([f] + fields) == f + "," + Joined(fields)
  {
    assert ([f] + fields)[1..] == fields;
  }

  lemma Regroup(a: string, b: string, c: string)
    ensures (a + "," + b) + c == a + ("," + (b + c))
  {
  }

  lemma CutNone(s: string)
    requires ',' !in s
    ensures Cut(s) == [] && Rest(s) == s
  {
    IndexIs(s, ',', "");
    Unit(s);
  }

  lemma CutFirst(f: string, tail: string)
    requires ',' !in f
    ensures Cut(f + ("," + tail)) == [f] + Cut(tail) && Rest(f + ("," + tail)) == Rest(tail)
  {
    var s := f + ("," + tail);
    IndexIs(f, ',', "," + tail);
    assert s[..|f|] == f && s[|f|+1..] == tail;
  }

  /** Nothing is lost: the fields, each with its comma, and what follows the last comma
      make up the text again. */
  lemma {:induction false} CutLosesNothing(s: string)
    ensures Joined(Cut(s)) + Rest(s) == s
    decreases |s|
  {
    var i := IndexOf(s, ',');
    IndexIsFirst(s, ',');
    if i == |s| {
      CutNone(s);
      Unit(s);
    } else {
      var f, tail := s[..i], s[i+1..];
      assert s == f + ("," + tail);
      CutFirst(f, tail);
      calc {
        Joined(Cut(s)) + Rest(s);
        { JoinedCons(f, Cut(tail)); }
        (f + "," + Joined(Cut(tail))) + Rest(tail);
        { Regroup(f, Joined(Cut(tail)), Rest(tail)); }
        f + ("," + (Joined(Cut(tail)) + Rest(tail)));
        { CutLosesNothing(tail); }
        s;
      }
    }
  }

  /** And no comma is left inside any of them. */
  lemma {:induction false} CutLeavesNoComma(s: string)
    ensures ',' !in Rest(s) && Free(Cut(s), ',')
    decreases |s|
  {
    var i := IndexOf(s, ',');
    IndexIsFirst(s, ',');
    if i == |s| {
      CutNone(s);
    } else {
      var f, tail := s[..i], s[i+1..];
      assert s == f + ("," + tail);
      CutFirst(f, tail);
      CutLeavesNoComma(tail);
      ConsJoin(f, Cut(tail), []);
    }
  }

  /** Fields without commas, joined, are cut into themselves again. */
  lemma {:induction false} CutOfJoined(fields: seq<string>, rest: string)
    requires Free(fields, ',') && ',' !in rest
    ensures Cut(Joined(fields) + rest) == fields
  {
    if fields == [] {
      Unit(rest);
      CutNone(rest);
    } else {
      var tail := Joined(fields[1..]) + rest;
      CutOfJoined(fields[1..], rest);
      calc {
        Cut(Joined(fields) + rest);
        { Regroup(fields[0], Joined(fields[1..]), rest); }
        Cut(fields[0] + ("," + tail));
        { CutFirst(fields[0], tail); }
        [fields[0]] + fields[1..];
        fields;
      }
    }
  }

  /** A sentence: the fields joined by commas, '*', and the checksum text. */
  function Sentence(fields: seq<string>, checksum: string): string
    requires fields != []
  {
    if |fields| == 1 then fields[0] + "*" + checksum
    else fields[0] + "," + Sentence(fields[1..], checksum)
  }

  lemma Replaced(before: string, after: string)
    requires '*' !in before
    ensures var text := before + ("*" + after);
      IndexOf(text, '*') == |before| && text[|before| := ','] == before + ("," + after)
  {
    IndexIs(before, '*', "*" + after);
  }

  /** What stands before the star of a sentence: the fields, with commas between. */
  function BeforeStar(fields: seq<string>): string
    requires fields != []
  {
    if |fields| == 1 then fields[0] else fields[0] + ("," + BeforeStar(fields[1..]))
  }

  lemma {:induction false} StarEndsFields(fields: seq<string>, checksum: string)
    requires fields != [] && Free(fields, '*')
    ensures '*' !in BeforeStar(fields)
    ensures Sentence(fields, checksum) == BeforeStar(fields) + ("*" + checksum)
    ensures BeforeStar(fields) + ("," + checksum) == Joined(fields) + checksum
  {
    var f := fields[0];
    if |fields| == 1 {
      assert Joined(fields[1..]) == "";
      Unit(f + ",");
      Assoc(f, ",", checksum);
      Assoc(f, "*", checksum);
    } else {
      var tail := BeforeStar(fields[1..]);
      StarEndsFields(fields[1..], checksum);
      Regroup(f, tail, "*" + checksum);
      Regroup(f, tail, "," + checksum);
      Regroup(f, Joined(fields[1..]), checksum);
      Assoc(f, ",", tail);
      Assoc(f, ",", Sentence(fields[1..], checksum));
    }
  }

  /** Round trip: tokenizing the sentence of any fields without commas and stars, with
      any checksum text without commas, gives exactly those fields. */
  lemma SentenceRoundTrip(fields: seq<string>, checksum: string)
    requires fields != [] && Free(fields, ',') && Free(fields, '*') && ',' !in checksum
    ensures '*' in Sentence(fields, checksum)
    ensures Cut(StarAsComma(Sentence(fields, checksum))) == fields
  {
    var text, before := Sentence(fields, checksum), BeforeStar(fields);
    StarEndsFields(fields, checksum);
    Replaced(before, checksum);
    assert text[|before|] == '*';
    assert StarAsComma(text) == Joined(fields) + checksum;
    CutOfJoined(fields, checksum);
  }

  /** From 6 to 4096 characters, of which the first are "$PQW". */
  lemma GateExactly(text: string)
    ensures IsDebug(text) <==>
      6 <= |text| <= 4096 && text[0] == '$' && text[1] == 'P' && text[2] == 'Q' && text[3] == 'W'
  {
    if |text| >= 6 {
      assert text[..4] == [text[0], text[1], text[2], text[3]];
    }
  }

  /** So the parser gives exactly those fields for every such sentence that passes the
      gate, and none for any other. */
  lemma TokenizedSentence(fields: seq<string>, checksum: string)
    requires fields != [] && Free(fields, ',') && Free(fields, '*') && ',' !in checksum
    ensures var text := Sentence(fields, checksum);
      Fields(text) ==
        if 6 <= |text| <= 4096 && text[0] == '$' && text[1] == 'P' && text[2] == 'Q' && text[3] == 'W' then fields
        else []
  {
    SentenceRoundTrip(fields, checksum);
    GateExactly(Sentence(fields, checksum));
  }

  /** fields are the pieces of text: once its first star is a comma, they and their commas
      are the text up to the last comma. */
  ghost predicate PiecesOf(fields: seq<string>, text: string, before: string, after: string, rest: string) {
    && '*' !in before && text == before + ("*" + after)
    && Joined(fields) + rest == before + ("," + after) && Free(fields, ',') && ',' !in rest
  }

  lemma StarSplits(text: string) returns (before: string, after: string)
    requires '*' in text
    ensures '*' !in before && text == before + ("*" + after) && StarAsComma(text) == before + ("," + after)
  {
    var i := IndexOf(text, '*');
    IndexIsFirst(text, '*');
    assert text[..|text|] == text;
    before, after := text[..i], text[i+1..];
    Around(text, i);
    Replaced(before, after);
  }

  lemma Around(s: string, i: nat)
    requires i < |s|
    ensures s == s[..i] + ([s[i]] + s[i+1..])
  {
  }

  ghost predicate HasPieces(fields: seq<string>, text: string) {
    exists before, after, rest :: PiecesOf(fields, text, before, after, rest)
  }

  lemma CutIsPieces(text: string)
    requires '*' in text
    ensures HasPieces(Cut(StarAsComma(text)), text)
  {
    var before, after := StarSplits(text);
    var cut := StarAsComma(text);
    CutLosesNothing(cut);
    CutLeavesNoComma(cut);
    assert PiecesOf(Cut(cut), text, before, after, Rest(cut));
  }

  /** And for any text whatever: its pieces if it passes the gate and has a star, and none
      otherwise. */
  lemma FieldsOfAnyText(text: string)
    ensures
      if 6 <= |text| <= 4096 && text[0] == '$' && text[1] == 'P' && text[2] == 'Q' && text[3] == 'W' && '*' in text
      then HasPieces(Fields(text), text) else Fields(text) == []
  {
    GateExactly(text);
    if '*' in text {
      CutIsPieces(text);
    }
  }
}
