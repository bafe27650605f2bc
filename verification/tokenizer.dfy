/** The genre tokenizer of app.py line 18:
      fillna('') -> x.split(',') -> [g.strip() for g ... if g.strip() != '']
    modelled with Python's own semantics for `str.split` with an explicit
    separator and for `str.strip()` without arguments. */
module Tokenizer {
  import opened Collections

  /** The characters for which Python's `str.isspace` holds: tab to carriage
      return, the four information separators, space, next line, no-break
      space, ogham space mark, the en quad to hair space block, line and
      paragraph separators, narrow no-break space, medium mathematical space
      and ideographic space. `str.strip()` without arguments removes these. */
  const Whitespace: set<char> :=
    {
      '\U{9}', '\U{A}', '\U{B}', '\U{C}', '\U{D}', '\U{1C}', '\U{1D}', '\U{1E}',
      '\U{1F}', '\U{20}', '\U{85}', '\U{A0}', '\U{1680}', '\U{2000}', '\U{2001}', '\U{2002}',
      '\U{2003}', '\U{2004}', '\U{2005}', '\U{2006}', '\U{2007}', '\U{2008}', '\U{2009}', '\U{200A}',
      '\U{2028}', '\U{2029}', '\U{202F}', '\U{205F}', '\U{3000}'
    }

  predicate IsSpace(c: char)
  {
    c in Whitespace
  }

  predicate AllSpace(s: string)
  {
    forall i :: 0 <= i < |s| ==> IsSpace(s[i])
  }

  /** Neither the first nor the last character is whitespace. */
  predicate NoEdgeSpace(s: string)
  {
    s == [] || (!IsSpace(s[0]) && !IsSpace(s[|s| - 1]))
  }

  /** What a genre token looks like: non-empty, comma-free, trimmed. */
  predicate IsToken(t: string)
  {
    t != [] && ',' !in t && NoEdgeSpace(t)
  }

  /** `s.split(',')`: the maximal comma-free pieces between the commas. */
  function Split(s: string): (parts: seq<string>)
    ensures |parts| >= 1
    ensures forall p :: p in parts ==> ',' !in p
  {
    if s == [] then [""]
    else
      var rest := Split(s[1..]);
      if s[0] == ',' then [""] + rest
      else [[s[0]] + rest[0]] + rest[1..]
  }

  /** `sep.join(parts)`. */
  function Join(parts: seq<string>, sep: string): string
  {
    if parts == [] then ""
    else if |parts| == 1 then parts[0]
    else parts[0] + sep + Join(parts[1..], sep)
  }

  lemma {:induction false} SplitCons(a: string, b: string)
    requires ',' !in a
    ensures Split(a + "," + b) == [a] + Split(b)
  {
    if a == [] {
      assert a + "," + b == "," + b;
      assert ("," + b)[1..] == b;
    } else {
      assert (a + "," + b)[1..] == a[1..] + "," + b;
      SplitCons(a[1..], b);
      assert [a[0]] + a[1..] == a;
    }
  }

  lemma {:induction false} SplitNoComma(a: string)
    requires ',' !in a
    ensures Split(a) == [a]
  {
    if a != [] {
      SplitNoComma(a[1..]);
      assert [a[0]] + a[1..] == a;
    }
  }

  /** Joining the pieces back with commas gives the original string. */
  lemma {:induction false} JoinSplit(s: string)
    ensures Join(Split(s), ",") == s
  {
    if s != [] {
      JoinSplit(s[1..]);
      var rest := Split(s[1..]);
      if s[0] == ',' {
        assert ([""] + rest)[1..] == rest;
      } else {
        var parts := [[s[0]] + rest[0]] + rest[1..];
        if |rest| == 1 {
          assert parts == [[s[0]] + rest[0]];
        } else {
          assert parts[1..] == rest[1..];
          assert Join(rest, ",") == rest[0] + "," + Join(rest[1..], ",");
        }
        assert s == [s[0]] + s[1..];
      }
    }
  }

  /** Splitting comma-free pieces joined with commas gives the pieces back. */
  lemma {:induction false} SplitJoin(parts: seq<string>)
    requires parts != []
    requires forall p :: p in parts ==> ',' !in p
    ensures Split(Join(parts, ",")) == parts
  {
    if |parts| == 1 {
      SplitNoComma(parts[0]);
    } else {
      SplitJoin(parts[1..]);
      SplitCons(parts[0], Join(parts[1..], ","));
      assert parts == [parts[0]] + parts[1..];
    }
  }

  /** Drops leading whitespace. */
  function TrimStart(s: string): string
  {
    if s != [] && IsSpace(s[0]) then TrimStart(s[1..]) else s
  }

  /** Drops trailing whitespace. */
  function TrimEnd(s: string): string
  {
    if s != [] && IsSpace(s[|s| - 1]) then TrimEnd(s[..|s| - 1]) else s
  }

  lemma {:induction false} TrimStartFacts(s: string)
    ensures var r := TrimStart(s);
      && |r| <= |s| && r == s[|s| - |r|..] && AllSpace(s[..|s| - |r|])
      && (r != [] ==> !IsSpace(r[0]))
  {
    if s != [] && IsSpace(s[0]) {
      TrimStartFacts(s[1..]);
      var r := TrimStart(s[1..]);
      var k := |s| - |r|;
      assert s[..k] == [s[0]] + s[1..][..k - 1];
      AllSpaceAppend([s[0]], s[1..][..k - 1]);
    } else {
      assert s[..0] == [];
    }
  }

  lemma {:induction false} TrimEndFacts(s: string)
    ensures var r := TrimEnd(s);
      && |r| <= |s| && r == s[..|r|] && AllSpace(s[|r|..])
      && (r != [] ==> !IsSpace(r[|r| - 1]))
  {
    if s != [] && IsSpace(s[|s| - 1]) {
      var s' := s[..|s| - 1];
      TrimEndFacts(s');
      var r := TrimEnd(s');
      assert s[|r|..] == s'[|r|..] + [s[|s| - 1]];
      AllSpaceAppend(s'[|r|..], [s[|s| - 1]]);
    } else {
      assert s[|s|..] == [];
    }
  }

  lemma AllSpaceAppend(a: string, b: string)
    ensures AllSpace(a + b) <==> AllSpace(a) && AllSpace(b)
  {
    if AllSpace(a) && AllSpace(b) {
      forall i | 0 <= i < |a + b| ensures IsSpace((a + b)[i]) {
        if i >= |a| {
          assert (a + b)[i] == b[i - |a|];
        }
      }
    }
    if AllSpace(a + b) {
      forall i | 0 <= i < |a| ensures IsSpace(a[i]) {
        assert (a + b)[i] == a[i];
      }
      forall i | 0 <= i < |b| ensures IsSpace(b[i]) {
        assert (a + b)[|a| + i] == b[i];
      }
    }
  }

  /** `s.strip()`: s without its leading and trailing whitespace. */
  function Strip(s: string): (r: string)
    ensures NoEdgeSpace(r)
    ensures r == [] <==> AllSpace(s)
    ensures forall c :: c in r ==> c in s
  {
    var a := TrimStart(s);
    TrimStartFacts(s);
    TrimEndFacts(a);
    StripFacts(s, a, TrimEnd(a), |s| - |a|);
    TrimEnd(a)
  }

  lemma SliceParts(s: string, i: int, j: int)
    requires 0 <= i <= j <= |s|
    ensures s == s[..i] + s[i..j] + s[j..]
  {
  }

  /** Everything strip removes is whitespace around the result. */
  lemma StripDecomposes(s: string)
    ensures exists w1, w2 :: AllSpace(w1) && AllSpace(w2) && s == w1 + Strip(s) + w2
  {
    var a := TrimStart(s);
    TrimStartFacts(s);
    TrimEndFacts(a);
    var r := TrimEnd(a);
    var i := |s| - |a|;
    StripFacts(s, a, r, i);
    var w1, w2 := s[..i], s[i + |r|..];
    SliceParts(s, i, i + |r|);
    assert s == w1 + r + w2;
    assert AllSpace(w1) && AllSpace(w2);
  }

  lemma StripFacts(s: string, a: string, r: string, i: int)
    requires 0 <= i <= |s| && a == s[i..] && AllSpace(s[..i])
    requires a != [] ==> !IsSpace(a[0])
    requires |r| <= |a| && r == a[..|r|] && AllSpace(a[|r|..])
    requires r != [] ==> !IsSpace(r[|r| - 1])
    ensures NoEdgeSpace(r)
    ensures r == [] <==> AllSpace(s)
    ensures 0 <= i <= |s| - |r| && r == s[i..i + |r|]
    ensures AllSpace(s[..i]) && AllSpace(s[i + |r|..])
  {
    assert s[i + |r|..] == a[|r|..];
    if r == [] {
      assert a[|r|..] == a;
      assert s == s[..i] + a;
      AllSpaceAppend(s[..i], a);
    } else {
      assert r[0] == a[0] == s[i];
    }
  }

  lemma {:induction false} TrimStartSkips(w: string, s: string)
    requires AllSpace(w)
    requires s == [] || !IsSpace(s[0])
    ensures TrimStart(w + s) == s
  {
    if w != [] {
      assert (w + s)[1..] == w[1..] + s;
      TrimStartSkips(w[1..], s);
    }
  }

  lemma {:induction false} TrimEndSkips(s: string, w: string)
    requires AllSpace(w)
    requires s == [] || !IsSpace(s[|s| - 1])
    ensures TrimEnd(s + w) == s
  {
    if w != [] {
      assert (s + w)[..|s + w| - 1] == s + w[..|w| - 1];
      TrimEndSkips(s, w[..|w| - 1]);
    } else {
      assert s + w == s;
    }
  }

  /** strip removes exactly the surrounding whitespace and nothing else. */
  lemma StripSurrounded(w1: string, t: string, w2: string)
    requires AllSpace(w1) && AllSpace(w2)
    requires NoEdgeSpace(t)
    ensures Strip(w1 + t + w2) == t
  {
    if t == [] {
      AllSpaceAppend(w1, t);
      AllSpaceAppend(w1 + t, w2);
    } else {
      assert w1 + t + w2 == w1 + (t + w2);
      TrimStartSkips(w1, t + w2);
      TrimEndSkips(t, w2);
    }
  }

  /** The comprehension `[g.strip() for g in parts if g.strip() != '']`. */
  function Tokens(parts: seq<string>): (toks: seq<string>)
    ensures |toks| <= |parts|
    ensures forall t :: t in toks ==> t != [] && NoEdgeSpace(t)
    ensures (forall p :: p in parts ==> ',' !in p) ==> forall t :: t in toks ==> ',' !in t
  {
    if parts == [] then []
    else
      var t := Strip(parts[0]);
      assert ',' !in parts[0] ==> ',' !in t;
      (if t != [] then [t] else []) + Tokens(parts[1..])
  }

  /** The genre list of one film: `fillna('')`, split on commas, strip, drop blanks. */
  function Tokenize(genres: Option<string>): (toks: seq<string>)
    ensures forall t :: t in toks ==> IsToken(t)
    ensures genres.None? ==> toks == []
  {
    var s := match genres case None => "" case Some(g) => g;
    Tokens(Split(s))
  }

  lemma TokensCons(p: string, rest: seq<string>)
    ensures Tokens([p] + rest) == (if Strip(p) != [] then [Strip(p)] else []) + Tokens(rest)
  {
    assert ([p] + rest)[1..] == rest;
  }

  /** Every piece stripped, in the order of the pieces. */
  function Stripped(parts: seq<string>): (ss: seq<string>)
    ensures |ss| == |parts|
    ensures forall i :: 0 <= i < |parts| ==> ss[i] == Strip(parts[i])
  {
    seq(|parts|, i requires 0 <= i < |parts| => Strip(parts[i]))
  }

  /** The tokens are the stripped pieces that are not blank, in the order
      of the pieces: the list comprehension's filter and nothing else. */
  lemma {:induction false} TokensKeepStripped(parts: seq<string>, nonBlank: string -> bool)
    requires forall t :: nonBlank(t) == (t != [])
    ensures Tokens(parts) == Keep(Stripped(parts), nonBlank)
  {
    if parts != [] {
      TokensKeepStripped(parts[1..], nonBlank);
      assert Stripped(parts)[1..] == Stripped(parts[1..]);
    }
  }

  /** A string is a token exactly when it is non-blank and some piece
      strips to it. */
  lemma TokensAreStrippedPieces(parts: seq<string>)
    ensures forall t :: t in Tokens(parts) <==> t != [] && exists p :: p in parts && Strip(p) == t
  {
    var nonBlank := (t: string) => t != [];
    TokensKeepStripped(parts, nonBlank);
    forall t | t != [] && exists p :: p in parts && Strip(p) == t
      ensures t in Tokens(parts)
    {
      var p :| p in parts && Strip(p) == t;
      var i :| 0 <= i < |parts| && parts[i] == p;
      assert Stripped(parts)[i] == t;
    }
  }

  /** The genre list of a non-null cell: the non-blank stripped comma
      pieces of the cell, in order, and nothing else. */
  lemma TokenizeSome(g: string, nonBlank: string -> bool)
    requires forall t :: nonBlank(t) == (t != [])
    ensures Tokenize(Some(g)) == Keep(Stripped(Split(g)), nonBlank)
    ensures forall t :: t in Tokenize(Some(g)) <==> t != [] && exists p :: p in Split(g) && Strip(p) == t
  {
    TokensKeepStripped(Split(g), nonBlank);
    TokensAreStrippedPieces(Split(g));
  }

  lemma BlankComma(s: string)
    ensures Tokens(Split([','] + s)) == Tokens(Split(s))
  {
    assert ([','] + s)[1..] == s;
    TokensCons("", Split(s));
  }

  lemma BlankChar(c: char, s: string)
    requires c != ','
    ensures Tokens(Split([c] + s)) == [] <==> IsSpace(c) && Tokens(Split(s)) == []
  {
    var rest := Split(s);
    assert ([c] + s)[1..] == s;
    assert Split([c] + s) == [[c] + rest[0]] + rest[1..];
    TokensCons([c] + rest[0], rest[1..]);
    TokensCons(rest[0], rest[1..]);
    assert rest == [rest[0]] + rest[1..];
    AllSpaceAppend([c], rest[0]);
  }

  /** A genres string yields no token exactly when it holds nothing but
      whitespace and commas (in particular the empty string). */
  lemma {:induction false} TokenizeBlank(s: string)
    ensures Tokenize(Some(s)) == [] <==> forall i :: 0 <= i < |s| ==> IsSpace(s[i]) || s[i] == ','
  {
    if s != [] {
      TokenizeBlank(s[1..]);
      assert forall i :: 1 <= i < |s| ==> s[i] == s[1..][i - 1];
      assert s == [s[0]] + s[1..];
      if s[0] == ',' {
        BlankComma(s[1..]);
      } else {
        BlankChar(s[0], s[1..]);
      }
    }
  }

  lemma NoCommaInSpace(w: string)
    requires AllSpace(w)
    ensures ',' !in w
  {
    assert !IsSpace(',');
    assert forall i :: 0 <= i < |w| ==> w[i] != ',';
  }

  /** A token behind whitespace is one comma-free piece that strips to the token. */
  lemma LeadingToken(w: string, t: string, rest: seq<string>)
    requires AllSpace(w) && IsToken(t)
    ensures ',' !in w + t
    ensures Tokens([w + t] + rest) == [t] + Tokens(rest)
  {
    NoCommaInSpace(w);
    StripSurrounded(w, t, "");
    assert w + t + "" == w + t;
    TokensCons(w + t, rest);
  }

  lemma TokensAfterSpaceNil(w: string)
    requires AllSpace(w)
    ensures Tokens(Split(w + Join([], ", "))) == []
  {
    NoCommaInSpace(w);
    assert w + Join([], ", ") == w;
    SplitNoComma(w);
    TokensCons(w, []);
  }

  lemma TokensAfterSpaceOne(w: string, t: string)
    requires AllSpace(w) && IsToken(t)
    ensures Tokens(Split(w + Join([t], ", "))) == [t]
  {
    LeadingToken(w, t, []);
    assert w + Join([t], ", ") == w + t;
    SplitNoComma(w + t);
  }

  lemma TokensAfterSpaceCons(w: string, t: string, ts: seq<string>)
    requires AllSpace(w) && IsToken(t) && ts != []
    requires Tokens(Split(" " + Join(ts, ", "))) == ts
    ensures Tokens(Split(w + Join([t] + ts, ", "))) == [t] + ts
  {
    var j := Join(ts, ", ");
    assert ([t] + ts)[1..] == ts;
    assert Join([t] + ts, ", ") == t + ", " + j;
    assert w + Join([t] + ts, ", ") == (w + t) + "," + (" " + j);
    LeadingToken(w, t, []);
    SplitCons(w + t, " " + j);
    LeadingToken(w, t, Split(" " + j));
  }

  lemma {:induction false} TokensAfterSpace(w: string, ts: seq<string>)
    requires AllSpace(w)
    requires forall t :: t in ts ==> IsToken(t)
    ensures Tokens(Split(w + Join(ts, ", "))) == ts
    decreases |ts|
  {
    if ts == [] {
      TokensAfterSpaceNil(w);
    } else {
      assert ts[0] in ts;
      if |ts| == 1 {
        TokensAfterSpaceOne(w, ts[0]);
        assert ts == [ts[0]];
      } else {
        TokensAfterSpace(" ", ts[1..]);
        TokensAfterSpaceCons(w, ts[0], ts[1..]);
        assert ts == [ts[0]] + ts[1..];
      }
    }
  }

  /** Round trip: genre names written as "Drama, War" tokenize back to the names. */
  lemma TokenizeJoin(ts: seq<string>)
    requires forall t :: t in ts ==> IsToken(t)
    ensures Tokenize(Some(Join(ts, ", "))) == ts
  {
    TokensAfterSpace("", ts);
    assert "" + Join(ts, ", ") == Join(ts, ", ");
  }
}
