/**
 * CookieManager.getCookies: the raw value of a request's Cookie header turned
 * into a list multimap from cookie name to the cookies of that name.
 */
module CookieManager {
  import opened Wrappers
  import opened JavaStrings

  datatype Cookie = Cookie(name: string, value: string)

  /** One `put` into the multimap: the key and the cookie stored under it. */
  datatype Entry = Entry(key: string, cookie: Cookie)

  /** A list multimap, given by its puts in order. */
  type Multimap = seq<Entry>

  /** The exception that escapes getCookies: `subPieces[0]` on an empty array. */
  datatype ParseError = ArrayIndexOutOfBounds

  /** ListMultimap.get: the cookies put under `key`, in the order they were put. */
  function Get(m: Multimap, key: string): seq<Cookie>
  {
    if m == [] then []
    else if m[|m| - 1].key == key then Get(m[..|m| - 1], key) + [m[|m| - 1].cookie]
    else Get(m[..|m| - 1], key)
  }

  /** The pieces of a non-empty header: its first space removed, then split on "; ". */
  function HeaderPieces(header: string): (r: seq<string>)
    ensures forall k :: 0 <= k < |r| ==> Free(r[k], "; ")
    ensures ' ' !in header ==> r == [header]
  {
    SplitSpec(RemoveFirst(header, ' '), "; ");
    assert ' ' !in header ==> Free(header, "; ") by {
      if ' ' !in header {
        NotFoundWithout(header, "; ", 1);
      }
    }
    Split(RemoveFirst(header, ' '), "; ")
  }

  /** A non-empty piece made of nothing but '=': splitting it on "=" gives an empty array. */
  predicate OnlyEquals(piece: string)
  {
    |piece| > 0 && forall k :: 0 <= k < |piece| ==> piece[k] == '='
  }

  /** The body of the loop for one piece: split on "=", name from index 0, value from index 1 if there is one. */
  function ParsePiece(piece: string): (r: Result<Cookie, ParseError>)
    ensures '=' !in piece ==> r == Success(Cookie(piece, ""))
  {
    assert "=" == ['='];
    SplitOnChar(piece, '=');
    var subPieces := Split(piece, "=");
    if |subPieces| == 0 then Failure(ArrayIndexOutOfBounds)
    else if |subPieces| == 1 then Success(Cookie(subPieces[0], ""))
    else Success(Cookie(subPieces[0], subPieces[1]))
  }

  /**
   * The puts of the loop over `pieces`: each piece adds one entry keyed by its
   * cookie's own name, in piece order; the first piece that cannot be indexed
   * aborts the whole call.
   */
  function PutAll(pieces: seq<string>): (r: Result<Multimap, ParseError>)
    ensures r.Success? <==> forall k :: 0 <= k < |pieces| ==> ParsePiece(pieces[k]).Success?
    ensures r.Success? ==> |r.value| == |pieces|
    ensures r.Success? ==> forall k :: 0 <= k < |pieces| ==>
      ParsePiece(pieces[k]) == Success(r.value[k].cookie) && r.value[k].key == r.value[k].cookie.name
  {
    if pieces == [] then Success([])
    else
      var prefix := pieces[..|pieces| - 1];
      var last := pieces[|pieces| - 1];
      assert forall k :: 0 <= k < |prefix| ==> prefix[k] == pieces[k];
      match PutAll(prefix)
      case Failure(e) =>
        assert exists k :: 0 <= k < |prefix| && !ParsePiece(prefix[k]).Success?;
        Failure(e)
      case Success(m) =>
        match ParsePiece(last)
        case Failure(e) => Failure(e)
        case Success(c) =>
          var r := m + [Entry(c.name, c)];
          assert forall k :: 0 <= k < |prefix| ==> r[k] == m[k];
          assert r[|prefix|] == Entry(c.name, c);
          Success(r)
  }

  /** getCookies on the raw header value; an empty header gives the empty multimap. */
  function ParseCookies(header: string): (r: Result<Multimap, ParseError>)
    ensures header == "" ==> r == Success([])
  {
    if header == "" then Success([]) else PutAll(HeaderPieces(header))
  }

  /** getCookies as the source writes it: reassign the header, split it, and put piece by piece. */
  method GetCookies(header: string) returns (r: Result<Multimap, ParseError>)
    ensures r == ParseCookies(header)
  {
    var raw := header;
    if raw == "" {
      assert ParseCookies(header) == Success([]);
      return Success([]);
    }
    raw := RemoveFirst(raw, ' ');
    var pieces := Split(raw, "; ");
    var cookies: Multimap := [];
    assert pieces == HeaderPieces(header);
    for i := 0 to |pieces|
      invariant PutAll(pieces[..i]) == Success(cookies)
    {
      var piece := pieces[i];
      var subPieces := Split(piece, "=");
      if |subPieces| == 0 {
        assert !PutAll(pieces).Success? by {
          assert ParsePiece(pieces[i]).Failure?;
        }
        assert ParseCookies(header) == PutAll(pieces);
        assert PutAll(pieces) == Failure(ArrayIndexOutOfBounds) by {
          var e := PutAll(pieces).error;
          assert e.ArrayIndexOutOfBounds?;
        }
        return Failure(ArrayIndexOutOfBounds);
      }
      var cookie := if |subPieces| == 1 then Cookie(subPieces[0], "") else Cookie(subPieces[0], subPieces[1]);
      assert PutAll(pieces[..i + 1]) == Success(cookies + [Entry(subPieces[0], cookie)]) by {
        assert ParsePiece(piece) == Success(cookie);
        assert pieces[..i + 1][..i] == pieces[..i];
      }
      cookies := cookies + [Entry(subPieces[0], cookie)];
    }
    assert pieces[..|pieces|] == pieces;
    assert ParseCookies(header) == PutAll(pieces);
    return Success(cookies);
  }

  // ---------------------------------------------------------------------------
  // Properties

  /**
   * One piece: it fails exactly when it is made only of '='; otherwise the name
   * is the text before the first '=' and the value the text between the first
   * and the second '=' (empty when there is none), and anything after a second
   * '=' is lost.
   */
  lemma ParsePieceSpec(piece: string)
    ensures ParsePiece(piece).Failure? <==> OnlyEquals(piece)
    ensures ParsePiece(piece).Success? ==>
      ParsePiece(piece).value == Cookie(Before(piece, '='), Before(After(piece, '='), '='))
  {
    assert "=" == ['='];
    SplitOnChar(piece, '=');
    if '=' in piece {
      ParsePieceWithEquals(piece);
    } else {
      BeforeUnique(piece, '=', |piece|);
      assert piece != [] ==> piece[0] in piece;
    }
  }

  /** ParsePieceSpec for a piece that holds at least one '='. */
  lemma ParsePieceWithEquals(piece: string)
    requires '=' in piece
    ensures ParsePiece(piece).Failure? <==> OnlyEquals(piece)
    ensures ParsePiece(piece).Success? ==>
      ParsePiece(piece).value == Cookie(Before(piece, '='), Before(After(piece, '='), '='))
  {
    assert "=" == ['='];
    SplitOnChar(piece, '=');
    var p := Pieces(piece, "=");
    PiecesChar(piece, '=');
    PiecesChar(After(piece, '='), '=');
    PiecesAllEmpty(piece, '=');
    DropTrailingFront(p);
  }

  /**
   * A whole header: a non-empty header fails exactly when one of its pieces is
   * made only of '='; otherwise it gives one entry per piece, in piece order,
   * each keyed by its own name, duplicates kept.
   */
  lemma ParseCookiesSpec(header: string)
    requires header != ""
    ensures var ps := HeaderPieces(header);
      ParseCookies(header).Success? <==> forall k :: 0 <= k < |ps| ==> !OnlyEquals(ps[k])
    ensures var ps := HeaderPieces(header);
      ParseCookies(header).Success? ==>
        |ParseCookies(header).value| == |ps| &&
        forall k :: 0 <= k < |ps| ==>
          var name := Before(ps[k], '=');
          ParseCookies(header).value[k] == Entry(name, Cookie(name, Before(After(ps[k], '='), '=')))
  {
    var ps := HeaderPieces(header);
    forall k | 0 <= k < |ps| ensures ParsePiece(ps[k]).Failure? <==> OnlyEquals(ps[k]) {
      ParsePieceSpec(ps[k]);
    }
    if ParseCookies(header).Success? {
      forall k | 0 <= k < |ps|
        ensures ParsePiece(ps[k]).value == Cookie(Before(ps[k], '='), Before(After(ps[k], '='), '='))
      {
        ParsePieceSpec(ps[k]);
      }
    }
  }

  // ---------------------------------------------------------------------------
  // Round trip

  /** A cookie name or value that holds no '=', no ';' and no space. */
  predicate PlainToken(t: string)
  {
    forall k :: 0 <= k < |t| ==> t[k] != '=' && t[k] != ';' && t[k] != ' '
  }

  predicate WellFormedCookie(c: Cookie)
  {
    c.name != "" && PlainToken(c.name) && PlainToken(c.value)
  }

  /** The `name=value` text of each cookie. */
  function Pairs(cs: seq<Cookie>): (r: seq<string>)
    ensures |r| == |cs|
    ensures forall k :: 0 <= k < |cs| ==> r[k] == cs[k].name + "=" + cs[k].value
  {
    if cs == [] then [] else [cs[0].name + "=" + cs[0].value] + Pairs(cs[1..])
  }

  /** A Cookie header value as a client writes it: the pairs joined with "; ". */
  function Serialize(cs: seq<Cookie>): string
  {
    Join(Pairs(cs), "; ")
  }

  /** The multimap holding `cs` under their own names, in order. */
  function Entries(cs: seq<Cookie>): (r: Multimap)
    ensures |r| == |cs|
    ensures forall k :: 0 <= k < |cs| ==> r[k] == Entry(cs[k].name, cs[k])
  {
    if cs == [] then [] else Entries(cs[..|cs| - 1]) + [Entry(cs[|cs| - 1].name, cs[|cs| - 1])]
  }

  /** The cookies of `cs` named `key`, in order. */
  function Named(cs: seq<Cookie>, key: string): seq<Cookie>
  {
    if cs == [] then []
    else if cs[|cs| - 1].name == key then Named(cs[..|cs| - 1], key) + [cs[|cs| - 1]]
    else Named(cs[..|cs| - 1], key)
  }

  /** Token characters are never '=', ';' or a space. */
  lemma PlainTokenChars(t: string)
    requires PlainToken(t)
    ensures '=' !in t && ';' !in t && ' ' !in t
  {
    forall k | 0 <= k < |t| ensures t[k] != '=' && t[k] != ';' && t[k] != ' ' { }
  }

  /** A well-formed pair parses back to its cookie. */
  lemma ParsePair(c: Cookie)
    requires WellFormedCookie(c)
    ensures ParsePiece(c.name + "=" + c.value) == Success(c)
  {
    var piece := c.name + "=" + c.value;
    PlainTokenChars(c.name);
    PlainTokenChars(c.value);
    SplitAtFirstEquals(c.name, c.value);
    ParsePieceSpec(piece);
    assert piece[0] == c.name[0];
    assert c.value[..|c.value|] == c.value;
    BeforeUnique(c.value, '=', |c.value|);
  }

  /** A well-formed pair holds no ';', so it cannot hold the "; " separator. */
  lemma PairHasNoSemicolon(c: Cookie)
    requires WellFormedCookie(c)
    ensures ';' !in c.name + "=" + c.value
  {
    assert ';' !in c.name by {
      forall k | 0 <= k < |c.name| ensures c.name[k] != ';' { }
    }
    assert ';' !in c.value by {
      forall k | 0 <= k < |c.value| ensures c.value[k] != ';' { }
    }
  }

  /** replaceFirst(" ", "") on a header that starts with a space drops that space. */
  lemma RemoveLeadingSpace(t: string)
    ensures RemoveFirst(" " + t, ' ') == t
  {
    assert (" " + t)[1..] == t;
  }

  /** The header of well-formed cookies, after its leading space, splits into their pairs. */
  lemma HeaderPiecesOfSerialize(cs: seq<Cookie>)
    requires |cs| > 0
    requires forall k :: 0 <= k < |cs| ==> WellFormedCookie(cs[k])
    ensures HeaderPieces(" " + Serialize(cs)) == Pairs(cs)
  {
    var ps := Pairs(cs);
    RemoveLeadingSpace(Serialize(cs));
    PairsArePlain(cs);
    PiecesOfJoin(ps, "; ");
    assert DropTrailingEmpty(ps) == ps;
  }

  /** The pairs of well-formed cookies hold no ';', and the last one is not empty. */
  lemma PairsArePlain(cs: seq<Cookie>)
    requires |cs| > 0
    requires forall k :: 0 <= k < |cs| ==> WellFormedCookie(cs[k])
    ensures forall k :: 0 <= k < |Pairs(cs)| ==> "; "[0] !in Pairs(cs)[k]
    ensures |Pairs(cs)[|cs| - 1]| > 0
  {
    var ps := Pairs(cs);
    var last := cs[|cs| - 1];
    assert |ps[|ps| - 1]| == |last.name| + 1 + |last.value|;
    forall k | 0 <= k < |ps| ensures "; "[0] !in ps[k] {
      PairHasNoSemicolon(cs[k]);
    }
  }

  /** Putting the pairs of well-formed cookies gives those cookies under their names. */
  lemma PutAllPairs(cs: seq<Cookie>)
    requires forall k :: 0 <= k < |cs| ==> WellFormedCookie(cs[k])
    ensures PutAll(Pairs(cs)) == Success(Entries(cs))
  {
    var ps := Pairs(cs);
    forall k | 0 <= k < |ps| ensures ParsePiece(ps[k]) == Success(cs[k]) {
      ParsePair(cs[k]);
    }
    var r := PutAll(ps);
    assert r.Success?;
    assert r.value == Entries(cs);
  }

  /**
   * With the single space a client puts after "Cookie:" still in front, the
   * header of well-formed cookies parses back to exactly those cookies.
   */
  lemma RoundTrip(cs: seq<Cookie>)
    requires |cs| > 0
    requires forall k :: 0 <= k < |cs| ==> WellFormedCookie(cs[k])
    ensures ParseCookies(" " + Serialize(cs)) == Success(Entries(cs))
  {
    HeaderPiecesOfSerialize(cs);
    PutAllPairs(cs);
  }

  /** Looking a name up in the entries of `cs` gives every cookie of that name, in order. */
  lemma {:induction false} GetEntries(cs: seq<Cookie>, key: string)
    ensures Get(Entries(cs), key) == Named(cs, key)
  {
    if cs != [] {
      var m := Entries(cs);
      assert m[..|m| - 1] == Entries(cs[..|cs| - 1]);
      GetEntries(cs[..|cs| - 1], key);
    }
  }

  /** Cookies of the same name are all kept, in the order they were sent. */
  lemma DuplicatesKept(cs: seq<Cookie>, key: string)
    requires |cs| > 0
    requires forall k :: 0 <= k < |cs| ==> WellFormedCookie(cs[k])
    ensures ParseCookies(" " + Serialize(cs)).Success?
    ensures Get(ParseCookies(" " + Serialize(cs)).value, key) == Named(cs, key)
  {
    RoundTrip(cs);
    GetEntries(cs, key);
  }

  /** replaceFirst(" ", "") deletes the space after a space-free prefix. */
  lemma RemoveSpaceAfter(a: string, b: string)
    requires ' ' !in a
    ensures RemoveFirst(a + " " + b, ' ') == a + b
  {
    var s := a + " " + b;
    RemoveFirstSpec(s, ' ');
    assert s[|a|] == ' ';
    assert s[..|a|] == a;
    BeforeUnique(s, ' ', |a|);
    var rest := After(s, ' ');
    assert s == a + [' '] + rest;
    assert s[|a| + 1..] == rest;
    assert s[|a| + 1..] == b;
  }

  /** Two pairs sent without a leading space come out of the split as a single piece. */
  lemma TwoPairsOnePiece(c1: Cookie, c2: Cookie)
    requires WellFormedCookie(c1) && WellFormedCookie(c2)
    ensures HeaderPieces(Serialize([c1, c2])) == [c1.name + "=" + c1.value + ";" + c2.name + "=" + c2.value]
  {
    PlainTokenChars(c1.name);
    PlainTokenChars(c1.value);
    PlainTokenChars(c2.name);
    PlainTokenChars(c2.value);
    var p1, p2 := c1.name + "=" + c1.value, c2.name + "=" + c2.value;
    assert Pairs([c1, c2]) == [p1, p2];
    assert [p1, p2][1..] == [p2];
    assert Join([p2], "; ") == p2;
    assert Serialize([c1, c2]) == (p1 + ";") + " " + p2;
    RemoveSpaceAfter(p1 + ";", p2);
    var piece := p1 + ";" + p2;
    assert ' ' !in piece;
    NotFoundWithout(piece, "; ", 1);
    assert piece == c1.name + "=" + c1.value + ";" + c2.name + "=" + c2.value;
  }

  /** The merged piece read as a name, an '=' and the rest. */
  lemma Regroup(n: string, v: string, m: string, w: string)
    ensures n + "=" + v + ";" + m + "=" + w == n + "=" + (v + ";" + m + "=" + w)
  {
  }

  /** A text with no '=' in front of an '=': the name before it and the rest after it. */
  lemma SplitAtFirstEquals(n: string, rest: string)
    requires '=' !in n
    ensures Before(n + "=" + rest, '=') == n
    ensures After(n + "=" + rest, '=') == rest
  {
    var s := n + "=" + rest;
    assert s[|n|] == '=';
    assert s[..|n|] == n;
    BeforeUnique(s, '=', |n|);
    assert s[|n| + 1..] == rest;
  }

  /** The merged piece: the first name, and everything up to the second '=' as its value. */
  lemma ParseMergedPiece(c1: Cookie, c2: Cookie)
    requires WellFormedCookie(c1) && WellFormedCookie(c2)
    ensures ParsePiece(c1.name + "=" + c1.value + ";" + c2.name + "=" + c2.value)
         == Success(Cookie(c1.name, c1.value + ";" + c2.name))
  {
    PlainTokenChars(c1.name);
    PlainTokenChars(c1.value);
    PlainTokenChars(c2.name);
    var value := c1.value + ";" + c2.name;
    var piece := c1.name + "=" + (value + "=" + c2.value);
    Regroup(c1.name, c1.value, c2.name, c2.value);
    SplitAtFirstEquals(c1.name, value + "=" + c2.value);
    SplitAtFirstEquals(value, c2.value);
    assert !OnlyEquals(piece) by {
      assert piece[0] == c1.name[0];
    }
    ParsePieceSpec(piece);
  }

  /**
   * Without a space in front, the first space removed is the one in the first
   * separator, so two cookies run together into one: the first name, with the
   * first value, a ';' and the second name as its value.
   */
  lemma SeparatorSpaceRemoved(c1: Cookie, c2: Cookie)
    requires WellFormedCookie(c1) && WellFormedCookie(c2)
    ensures ParseCookies(Serialize([c1, c2])) == Success([Entry(c1.name, Cookie(c1.name, c1.value + ";" + c2.name))])
  {
    var piece := c1.name + "=" + c1.value + ";" + c2.name + "=" + c2.value;
    TwoPairsOnePiece(c1, c2);
    ParseMergedPiece(c1, c2);
    assert Serialize([c1, c2]) != "" by {
      assert |HeaderPieces(Serialize([c1, c2]))[0]| > 0;
    }
    assert ParseCookies(Serialize([c1, c2])) == PutAll([piece]);
    var r := PutAll([piece]);
    var e := Entry(c1.name, Cookie(c1.name, c1.value + ";" + c2.name));
    assert r.Success? && |r.value| == 1 && r.value[0] == e;
    assert r.value == [e];
  }

  /** A piece of only '=' aborts the call; a lone space gives one cookie with empty name and value. */
  lemma EdgePieces()
    ensures ParseCookies("=").Failure?
    ensures ParseCookies(" ") == Success([Entry("", Cookie("", ""))])
  {
    assert HeaderPieces("=") == ["="] by {
      assert RemoveFirst("=", ' ') == "=";
      assert IndexOf("=", "; ", 0).None?;
    }
    assert ParsePiece("=").Failure? by {
      ParsePieceSpec("=");
    }
    assert HeaderPieces(" ") == [""] by {
      assert RemoveFirst(" ", ' ') == "";
      assert IndexOf("", "; ", 0).None?;
    }
    assert ParsePiece("") == Success(Cookie("", "")) by {
      assert IndexOf("", "=", 0).None?;
    }
    assert ParseCookies("=") == PutAll(["="]);
    assert PutAll(["="]).Failure?;
    assert [""][..0] == [];
    assert ParseCookies(" ") == PutAll([""]);
    var r := PutAll([""]);
    assert ParsePiece([""][0]).Success?;
    assert r.Success? && |r.value| == 1 && r.value[0] == Entry("", Cookie("", ""));
    assert r.value == [Entry("", Cookie("", ""))];
  }
}
