/** The header-string parser of the HTTP client: name=value pairs joined by commas. */
module Headers {

  datatype Header = Header(name: string, value: string)

  /** The pieces between delimiters; always at least one. */
  function Split(s: string, c: char): (pieces: seq<string>)
    ensures |pieces| > 0
  {
    if s == [] then [""]
    else
      var rest := Split(s[1..], c);
      if s[0] == c then [""] + rest else [[s[0]] + rest[0]] + rest[1..]
  }

  function Join(pieces: seq<string>, c: char): string
    requires |pieces| > 0
  {
    if |pieces| == 1 then pieces[0] else pieces[0] + [c] + Join(pieces[1..], c)
  }

  lemma {:induction false} JoinSplit(s: string, c: char)
    ensures Join(Split(s, c), c) == s
    ensures forall p <- Split(s, c) :: c !in p
  {
    if s != [] {
      JoinSplit(s[1..], c);
      var rest := Split(s[1..], c);
      if s[0] == c {
        assert ([""] + rest)[1..] == rest;
      } else if |rest| > 1 {
        assert ([[s[0]] + rest[0]] + rest[1..])[1..] == rest[1..];
      }
    }
  }

  lemma {:induction false} SplitJoin(pieces: seq<string>, c: char)
    requires |pieces| > 0 && forall p <- pieces :: c !in p
    ensures Split(Join(pieces, c), c) == pieces
    decreases |pieces|
  {
    if |pieces| == 1 {
      SplitPlain(pieces[0], c);
    } else {
      SplitJoin(pieces[1..], c);
      SplitAtFirst(pieces[0], Join(pieces[1..], c), c);
      assert [pieces[0]] + pieces[1..] == pieces;
    }
  }

  lemma {:induction false} SplitPlain(p: string, c: char)
    requires c !in p
    ensures Split(p, c) == [p]
  {
    if p != [] {
      SplitPlain(p[1..], c);
      assert [p[0]] + p[1..] == p;
    }
  }

  lemma {:induction false} SplitAtFirst(p: string, tail: string, c: char)
    requires c !in p
    ensures Split(p + [c] + tail, c) == [p] + Split(tail, c)
  {
    var s := p + [c] + tail;
    if p == [] {
      assert s[1..] == tail;
    } else {
      SplitAtFirst(p[1..], tail, c);
      assert s[1..] == p[1..] + [c] + tail;
      assert [p[0]] + p[1..] == p;
    }
  }

  // ---------------------------------------------------------------- One pair

  /** What stands before the first '=' and what stands behind it. */
  function NameOf(piece: string): string {
    if piece == [] || piece[0] == '=' then [] else [piece[0]] + NameOf(piece[1..])
  }

  function ValueOf(piece: string): string {
    if piece == [] then [] else if piece[0] == '=' then piece[1..] else ValueOf(piece[1..])
  }

  /** The pieces each followed by a delimiter. */
  function Trailing(pieces: seq<string>): string {
    if pieces == [] then [] else Trailing(pieces[..|pieces| - 1]) + pieces[|pieces| - 1] + "="
  }

  lemma {:induction false} TrailingIsJoin(pieces: seq<string>)
    requires |pieces| > 0
    ensures Trailing(pieces) == Join(pieces, '=') + "="
    decreases |pieces|
  {
    if |pieces| > 1 {
      TrailingIsJoin(pieces[1..]);
      TrailingFront(pieces);
    } else {
      assert pieces[..0] == [];
    }
  }

  lemma {:induction false} TrailingFront(pieces: seq<string>)
    requires |pieces| > 0
    ensures Trailing(pieces) == pieces[0] + "=" + Trailing(pieces[1..])
    decreases |pieces|
  {
    var n := |pieces|;
    if n == 1 {
      assert pieces[..0] == [] && pieces[1..] == [];
    } else {
      TrailingFront(pieces[..n - 1]);
      assert pieces[..n - 1][1..] == pieces[1..][..n - 2];
    }
  }

  /** The split of a pair gives its name first, and the rest joined again is its value. */
  lemma {:induction false} PairSplit(piece: string)
    ensures var nv := Split(piece, '=');
      nv[0] == NameOf(piece) && if |nv| > 1 then Join(nv[1..], '=') == ValueOf(piece) else ValueOf(piece) == []
  {
    if piece != [] {
      PairSplit(piece[1..]);
      if piece[0] == '=' {
        JoinSplit(piece[1..], '=');
      }
    }
  }

  // ---------------------------------------------------------------- The parser

  function Parsed(pieces: seq<string>): seq<Header> {
    if pieces == [] then []
    else
      var front, last := Parsed(pieces[..|pieces| - 1]), pieces[|pieces| - 1];
      if NameOf(last) == [] then front else front + [Header(NameOf(last), ValueOf(last))]
  }

  predicate Named(piece: string) {
    piece != [] && piece[0] != '='
  }

  /** How many of the first n pieces have a name. */
  function Rank(pieces: seq<string>, n: nat): nat
    requires n <= |pieces|
  {
    if n == 0 then 0 else Rank(pieces, n - 1) + if Named(pieces[n - 1]) then 1 else 0
  }

  lemma {:induction false} RankOfFront(pieces: seq<string>, last: string, n: nat)
    requires n <= |pieces|
    ensures Rank(pieces + [last], n) == Rank(pieces, n)
  {
    if n > 0 {
      RankOfFront(pieces, last, n - 1);
    }
  }

  lemma {:induction false} RankGrows(pieces: seq<string>, i: nat, n: nat)
    requires i < n <= |pieces| && Named(pieces[i])
    ensures Rank(pieces, i) < Rank(pieces, n)
  {
    if n > i + 1 {
      RankGrows(pieces, i, n - 1);
    }
  }

  /** A header that is a piece's: its name up to the first '=', its value all behind it. */
  ghost predicate IsOf(h: Header, piece: string) {
    && '=' !in h.name
    && if '=' in piece then piece == h.name + "=" + h.value else piece == h.name && h.value == ""
  }

  /** Every piece with a name has its header, at its place among such pieces, and there are no others. */
  lemma {:induction false} ParsedAt(pieces: seq<string>)
    ensures |Parsed(pieces)| == Rank(pieces, |pieces|)
    ensures forall i | 0 <= i < |pieces| && Named(pieces[i]) ::
              Rank(pieces, i) < |Parsed(pieces)| && IsOf(Parsed(pieces)[Rank(pieces, i)], pieces[i])
    decreases |pieces|
  {
    if pieces != [] {
      var n := |pieces| - 1;
      var front, last := pieces[..n], pieces[n];
      ParsedAt(front);
      PairRebuilt(last);
      assert front + [last] == pieces;
      RankOfFront(front, last, n);
      forall i | 0 <= i < |pieces| && Named(pieces[i])
        ensures Rank(pieces, i) < |Parsed(pieces)| && IsOf(Parsed(pieces)[Rank(pieces, i)], pieces[i])
      {
        if i < n {
          RankOfFront(front, last, i);
        }
      }
    }
  }

  /** Every pair with a name, in order; the value is all that follows the pair's first '='. */
  method ParseHeaders(headersString: string) returns (headers: seq<Header>)
    ensures headers == Parsed(Split(headersString, ','))
    ensures var pieces := Split(headersString, ',');
      && |headers| == Rank(pieces, |pieces|)
      && forall i | 0 <= i < |pieces| && Named(pieces[i]) ::
           Rank(pieces, i) < |headers| && IsOf(headers[Rank(pieces, i)], pieces[i])
  {
    var headersList := Split(headersString, ',');
    headers := [];
    for h := 0 to |headersList|
      invariant headers == Parsed(headersList[..h])
    {
      var headerPair := headersList[h];
      var nv := Split(headerPair, '=');
      PairSplit(headerPair);
      assert headersList[..h + 1][..h] == headersList[..h];
      if |nv| > 0 {
        if nv[0] == "" {
          continue;
        }
        var value := "";
        for i := 1 to |nv|
          invariant value == Trailing(nv[1..i])
        {
          assert nv[1..i + 1][..i - 1] == nv[1..i];
          value := value + nv[i] + "=";
        }
        if |nv| > 1 {
          assert nv[1..|nv|] == nv[1..];
          TrailingIsJoin(nv[1..]);
          value := value[..|value| - 1];
        }
        headers := headers + [Header(nv[0], value)];
      }
    }
    assert headersList[..|headersList|] == headersList;
    ParsedAt(headersList);
  }

  // ---------------------------------------------------------------- Parsing and printing

  predicate Printable(h: Header) {
    h.name != [] && ',' !in h.name && '=' !in h.name && ',' !in h.value
  }

  function Pairs(headers: seq<Header>): (pieces: seq<string>)
    ensures |pieces| == |headers|
  {
    seq(|headers|, i requires 0 <= i < |headers| => headers[i].name + "=" + headers[i].value)
  }

  function Print(headers: seq<Header>): string {
    if headers == [] then "" else Join(Pairs(headers), ',')
  }

  function Parse(s: string): seq<Header> {
    Parsed(Split(s, ','))
  }

  lemma {:induction false} PairParts(name: string, value: string)
    requires '=' !in name
    ensures NameOf(name + "=" + value) == name && ValueOf(name + "=" + value) == value
  {
    var piece := name + "=" + value;
    if name == [] {
      assert piece[1..] == value;
    } else {
      PairParts(name[1..], value);
      assert piece[1..] == name[1..] + "=" + value;
    }
  }

  lemma {:induction false} ParsedPairs(headers: seq<Header>)
    requires forall h <- headers :: Printable(h)
    ensures Parsed(Pairs(headers)) == headers
    decreases |headers|
  {
    if headers != [] {
      var n := |headers| - 1;
      assert Printable(headers[n]);
      ParsedPairs(headers[..n]);
      assert Pairs(headers)[..n] == Pairs(headers[..n]);
      PairParts(headers[n].name, headers[n].value);
      assert headers[..n] + [headers[n]] == headers;
    }
  }

  /** The parser inverts the printer. */
  lemma ParsePrint(headers: seq<Header>)
    requires forall h <- headers :: Printable(h)
    ensures Parse(Print(headers)) == headers
  {
    if headers == [] {
      assert Split("", ',') == [""];
      assert [""][..0] == [];
    } else {
      var pieces := Pairs(headers);
      forall p | p in pieces ensures ',' !in p {
        var i :| 0 <= i < |headers| && p == pieces[i];
        assert Printable(headers[i]);
      }
      SplitJoin(pieces, ',');
      ParsedPairs(headers);
    }
  }

  lemma {:induction false} NamePlain(piece: string)
    ensures '=' !in NameOf(piece)
    ensures forall c | c in NameOf(piece) || c in ValueOf(piece) :: c in piece
  {
    if piece != [] && piece[0] != '=' {
      NamePlain(piece[1..]);
    }
  }

  lemma {:induction false} ParsedPrintable(pieces: seq<string>)
    requires forall p <- pieces :: ',' !in p
    ensures forall h <- Parsed(pieces) :: Printable(h)
    decreases |pieces|
  {
    if pieces != [] {
      ParsedPrintable(pieces[..|pieces| - 1]);
      NamePlain(pieces[|pieces| - 1]);
    }
  }

  /** Whatever was parsed, printing and parsing it again changes nothing. */
  lemma ParsePrintParse(s: string)
    ensures forall h <- Parse(s) :: Printable(h)
    ensures Parse(Print(Parse(s))) == Parse(s)
  {
    JoinSplit(s, ',');
    ParsedPrintable(Split(s, ','));
    ParsePrint(Parse(s));
  }

  /** The headers that survive printing and parsing are exactly the ones a parse can give. */
  lemma SurvivesExactly(headers: seq<Header>)
    ensures Parse(Print(headers)) == headers <==> forall h <- headers :: Printable(h)
  {
    if forall h <- headers :: Printable(h) {
      ParsePrint(headers);
    } else {
      ParsePrintParse(Print(headers));
    }
  }

  /** Any pair is its name, which has no '=', then '=' and its value; without an '=' it is just its name. */
  lemma {:induction false} PairRebuilt(piece: string)
    ensures '=' !in NameOf(piece)
    ensures if '=' in piece then piece == NameOf(piece) + "=" + ValueOf(piece)
            else piece == NameOf(piece) && ValueOf(piece) == ""
  {
    if piece == [] {
    } else if piece[0] == '=' {
      assert piece == "" + "=" + piece[1..];
    } else {
      var first, rest := [piece[0]], piece[1..];
      PairRebuilt(rest);
      assert piece == first + rest;
      if '=' in rest {
        assert piece == first + NameOf(rest) + "=" + ValueOf(rest);
      }
    }
  }
}
