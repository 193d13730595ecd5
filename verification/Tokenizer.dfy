/**
 The quoting tokenizer of the configuration reader, which cuts a line into words
 inside its own buffer, and the function that escapes a word for it.
 */
module Tokenizer {
  import opened Names

  // ---------------------------------------------------------------- C strings

  /** The characters from p on are the string s and its NUL. */
  ghost predicate CStr(buf: array<char>, p: nat, s: string)
    reads buf
  {
    && p + |s| < buf.Length && buf[p + |s|] == NUL
    && forall i | p <= i < p + |s| :: buf[i] == s[i - p] != NUL
  }

  lemma NoNul(buf: array<char>, p: nat, s: string)
    requires CStr(buf, p, s)
    ensures NUL !in s
  {
    forall j | 0 <= j < |s| ensures s[j] != NUL {
      assert buf[p + j] == s[p + j - p];
    }
  }

  lemma Tail(buf: array<char>, p: nat, s: string)
    requires CStr(buf, p, s) && s != []
    ensures CStr(buf, p + 1, s[1..])
  {
    forall i | p + 1 <= i < p + |s| ensures buf[i] == s[1..][i - p - 1] != NUL {
      assert buf[i] == s[i - p];
    }
  }

  // ---------------------------------------------------------------- what a call takes off a line

  /** A word and the number of characters read for it. */
  datatype Scan = Scan(word: string, used: nat)

  function Keep(c: char, rest: Scan): Scan {
    Scan([c] + rest.word, rest.used + 1)
  }

  function Drop(rest: Scan): Scan {
    Scan(rest.word, rest.used + 1)
  }

  function ScanFrom(s: string, delim: string, quoted: char, bslash: bool): (r: Scan)
    ensures |r.word| <= r.used <= |s|
    ensures NUL !in s ==> NUL !in r.word
  {
    if s == [] || s[0] == '\n' then Scan([], 0)
    else if bslash then Keep(s[0], ScanFrom(s[1..], delim, quoted, false))
    else if quoted != NUL then
      if quoted == '"' && s[0] == '\\' then Drop(ScanFrom(s[1..], delim, quoted, true))
      else if s[0] == quoted then Drop(ScanFrom(s[1..], delim, NUL, false))
      else Keep(s[0], ScanFrom(s[1..], delim, quoted, false))
    else if s[0] == '\\' then Drop(ScanFrom(s[1..], delim, NUL, true))
    else if s[0] == '"' || s[0] == '\'' then Drop(ScanFrom(s[1..], delim, s[0], false))
    else if s[0] !in delim then Keep(s[0], ScanFrom(s[1..], delim, NUL, false))
    else Scan([], 1)
  }

  function SkipDelim(s: string, delim: string): (r: string)
    ensures |r| <= |s|
    ensures NUL !in s ==> NUL !in r
  {
    if s != [] && s[0] in delim then SkipDelim(s[1..], delim) else s
  }

  function Word(s: string, delim: string): string {
    ScanFrom(s, delim, NUL, false).word
  }

  /**
   What is left of the line. A newline that ends a word in which nothing was
   dropped is overwritten by the NUL of the word, and nothing is left.
   */
  function Left(s: string, delim: string): (r: string)
    ensures r != [] ==> |r| < |s|
    ensures NUL !in s ==> NUL !in r
  {
    var scan := ScanFrom(s, delim, NUL, false);
    if |scan.word| == scan.used then [] else SkipDelim(s[scan.used..], delim)
  }

  /** The words of a line, as repeated calls deliver them. */
  function Words(s: string, delim: string): seq<string>
    decreases |s|
  {
    var left := Left(s, delim);
    [Word(s, delim)] + if left == [] then [] else Words(left, delim)
  }

  // ---------------------------------------------------------------- strsepq

  /** One pass of the scanning loop: a character is kept, dropped, or ends the word. */
  method ScanOne(buf: array<char>, r: nat, q: nat, quoted: char, bslash: bool, delim: string, ghost rest: string)
    returns (r': nat, quoted': char, bslash': bool, stop: bool)
    requires r <= q < buf.Length && rest != [] && rest[0] == buf[q] && rest[0] != '\n' && rest[0] != NUL
    modifies buf
    ensures stop ==> r' == r && ScanFrom(rest, delim, quoted, bslash) == Scan([], 1)
    ensures !stop ==> r' == r || r' == r + 1
    ensures !stop && r' == r ==>
      ScanFrom(rest, delim, quoted, bslash) == Drop(ScanFrom(rest[1..], delim, quoted', bslash'))
    ensures !stop && r' == r + 1 ==> buf[r] == rest[0]
    ensures !stop && r' == r + 1 ==>
      ScanFrom(rest, delim, quoted, bslash) == Keep(rest[0], ScanFrom(rest[1..], delim, quoted', bslash'))
    ensures forall i | 0 <= i < buf.Length && i != r :: buf[i] == old(buf[i])
  {
    r', quoted', bslash', stop := r, quoted, bslash, false;
    var c := buf[q];
    if bslash {
      bslash' := false;
      buf[r] := c;
      r' := r + 1;
    } else if quoted != NUL {
      if quoted == '"' && c == '\\' {
        bslash' := true;
      } else if c == quoted {
        quoted' := NUL;
      } else {
        buf[r] := c;
        r' := r + 1;
      }
    } else if c == '\\' {
      bslash' := true;
    } else if c == '"' || c == '\'' {
      quoted' := c;
    } else if c !in delim {
      buf[r] := c;
      r' := r + 1;
    } else {
      stop := true;
    }
  }

  /** The scanning loop: the word is written over the part of the line already read. */
  method ScanWord(buf: array<char>, p: nat, delim: string, ghost s: string) returns (r: nat, q: nat, ghost word: string)
    requires CStr(buf, p, s) && NUL !in delim
    modifies buf
    ensures p <= r <= q <= p + |s| < buf.Length
    ensures Scan(word, q - p) == ScanFrom(s, delim, NUL, false) && |word| == r - p
    ensures forall i | p <= i < r :: buf[i] == word[i - p]
    ensures forall i | 0 <= i < p || q <= i < buf.Length :: buf[i] == old(buf[i])
  {
    hide ScanFrom, Keep, Drop, Shift;
    var quoted, bslash := NUL, false;
    r, q, word := p, p, [];
    ghost var whole := ScanFrom(s, delim, NUL, false);
    ShiftNone(s, whole);
    while buf[q] != NUL && buf[q] != '\n'
      invariant p <= r <= q <= p + |s| < buf.Length && |word| == r - p
      invariant forall i | p <= i < r :: buf[i] == word[i - p]
      invariant forall i | 0 <= i < p || q <= i < buf.Length :: buf[i] == old(buf[i])
      invariant whole == Shift(q - p, word, ScanFrom(s[q - p..], delim, quoted, bslash))
      decreases p + |s| - q
    {
      ghost var rest := s[q - p..];
      assert rest[1..] == s[q + 1 - p..];
      var r', quoted', bslash', stop := ScanOne(buf, r, q, quoted, bslash, delim, rest);
      ShiftNext(q - p, word, rest[0], ScanFrom(rest[1..], delim, quoted', bslash'));
      q := q + 1;
      if stop {
        return;
      }
      if r' == r + 1 {
        word := word + [rest[0]];
      }
      r, quoted, bslash := r', quoted', bslash';
    }
    ScanOver(q - p, word, s[q - p..], delim, quoted, bslash);
  }

  lemma ShiftNone(s: string, scan: Scan)
    ensures s[0..] == s && Shift(0, [], scan) == scan
  {
  }

  lemma ScanOver(n: nat, w: string, rest: string, delim: string, quoted: char, bslash: bool)
    requires rest == [] || rest[0] == '\n'
    ensures Shift(n, w, ScanFrom(rest, delim, quoted, bslash)) == Scan(w, n)
  {
    assert w + [] == w;
  }

  lemma ShiftNext(n: nat, w: string, c: char, scan: Scan)
    ensures Shift(n, w, Keep(c, scan)) == Shift(n + 1, w + [c], scan)
    ensures Shift(n, w, Drop(scan)) == Shift(n + 1, w, scan)
    ensures Shift(n, w, Scan([], 1)) == Scan(w, n + 1)
  {
    assert w + ([c] + scan.word) == (w + [c]) + scan.word && w + [] == w;
  }

  /** The trailing loop: separators before the next word are passed over. */
  method SkipTail(buf: array<char>, start: nat, delim: string, ghost s: string) returns (q: nat)
    requires CStr(buf, start, s)
    ensures start <= q && CStr(buf, q, SkipDelim(s, delim)) && q + |SkipDelim(s, delim)| == start + |s|
  {
    q := start;
    ghost var t := s;
    while buf[q] != NUL && buf[q] in delim
      invariant start <= q && CStr(buf, q, t) && q + |t| == start + |s|
      invariant SkipDelim(s, delim) == SkipDelim(t, delim)
      decreases |t|
    {
      Tail(buf, q, t);
      q, t := q + 1, t[1..];
    }
  }

  /**
   strsepq: the word takes the place of what was read for it, nothing behind
   the reading point is touched, and the next call begins at what is left.
   */
  method Strsepq(buf: array<char>, p: nat, delim: string, ghost s: string) returns (next: Option<nat>)
    requires CStr(buf, p, s) && NUL !in delim
    modifies buf
    ensures CStr(buf, p, Word(s, delim))
    ensures next == None <==> Left(s, delim) == []
    ensures next.Some? ==> p + |Word(s, delim)| < next.value && CStr(buf, next.value, Left(s, delim))
    ensures forall i | 0 <= i < p || p + |s| < i < buf.Length :: buf[i] == old(buf[i])
  {
    hide ScanFrom, SkipDelim;
    NoNul(buf, p, s);
    ghost var word;
    var r, q;
    r, q, word := ScanWord(buf, p, delim, s);
    ghost var rest := s[q - p..];
    buf[r] := NUL;
    assert CStr(buf, p, word);
    if r == q {
      return None;
    }
    assert CStr(buf, q, rest);
    q := SkipTail(buf, q, delim, rest);
    if buf[q] != NUL {
      return Some(q);
    } else {
      return None;
    }
  }

  /** xstrdup of the string at p. */
  method Duplicate(buf: array<char>, p: nat, ghost s: string) returns (copy: string)
    requires CStr(buf, p, s)
    ensures copy == s
  {
    copy := [];
    var i := p;
    while buf[i] != NUL
      invariant p <= i <= p + |s| && copy == s[..i - p]
      decreases p + |s| - i
    {
      copy := copy + [buf[i]];
      i := i + 1;
    }
  }

  /** The loop that collects the words of a line until the pointer is null. */
  method Split(buf: array<char>, start: nat, delim: string, ghost line: string) returns (words: seq<string>)
    requires CStr(buf, start, line) && NUL !in delim
    modifies buf
    ensures words == Words(line, delim)
  {
    words := [];
    var arg := Some(start);
    ghost var left := line;
    while arg != None
      invariant arg.Some? ==> CStr(buf, arg.value, left)
      invariant Words(line, delim) == words + if arg.Some? then Words(left, delim) else []
      decreases if arg.Some? then |left| + 1 else 0
    {
      hide Words, Word, Left, CStr;
      var p := arg.value;
      ghost var word, rest := Word(left, delim), Left(left, delim);
      NextWord(words, left, delim);
      arg := Strsepq(buf, p, delim, left);
      var copy := Duplicate(buf, p, word);
      words := words + [copy];
      left := rest;
    }
  }

  lemma NextWord(words: seq<string>, s: string, delim: string)
    ensures words + Words(s, delim)
         == words + [Word(s, delim)] + if Left(s, delim) == [] then [] else Words(Left(s, delim), delim)
  {
    hide Word, Left;
  }

  // ---------------------------------------------------------------- escaping

  predicate Special(c: char) {
    c == '"' || c == '\\' || c == '\''
  }

  function EscapeChar(c: char): string {
    if Special(c) then ['\\', c] else [c]
  }

  function Escape(s: string): (r: string)
    ensures NUL !in s ==> NUL !in r
  {
    if s == [] then [] else EscapeChar(s[0]) + Escape(s[1..])
  }

  lemma {:induction false} EscapeConcat(a: string, b: string)
    ensures Escape(a + b) == Escape(a) + Escape(b)
  {
    if a == [] {
      assert a + b == b;
    } else {
      assert (a + b)[0] == a[0] && (a + b)[1..] == a[1..] + b;
      EscapeConcat(a[1..], b);
    }
  }

  lemma EscapeOne(c: char)
    ensures Escape([c]) == EscapeChar(c)
  {
    assert EscapeChar(c) + [] == EscapeChar(c);
  }

  lemma EscapeMore(s: string, i: nat)
    requires i < |s|
    ensures Escape(s[..i + 1]) == Escape(s[..i]) + EscapeChar(s[i])
    ensures |Escape(s[..i + 1])| <= |Escape(s)|
  {
    EscapeOne(s[i]);
    hide Escape, EscapeChar;
    assert s[..i + 1] == s[..i] + [s[i]];
    EscapeConcat(s[..i], [s[i]]);
    assert s == s[..i + 1] + s[i + 1..];
    EscapeConcat(s[..i + 1], s[i + 1..]);
  }

  /** The first loop of escape_string. */
  method EscapedSize(src: array<char>, start: nat, ghost s: string) returns (size: nat)
    requires CStr(src, start, s)
    ensures size == |Escape(s)|
  {
    hide Escape;
    var p := start;
    size := 0;
    EscapeNone();
    while src[p] != NUL
      invariant start <= p <= start + |s| && size == |Escape(s[..p - start])|
      decreases start + |s| - p
    {
      EscapeMore(s, p - start);
      if src[p] == '"' || src[p] == '\\' || src[p] == '\'' {
        size := size + 2;
      } else {
        size := size + 1;
      }
      p := p + 1;
    }
    assert s[..p - start] == s;
  }

  lemma EscapeNone()
    ensures forall s: string | s == [] :: Escape(s) == []
  {
  }

  /** escape_string: the first loop finds exactly the size that the second one fills. */
  method EscapeString(src: array<char>, start: nat, ghost s: string) returns (r: array<char>)
    requires CStr(src, start, s)
    ensures fresh(r) && CStr(r, 0, Escape(s)) && r.Length == |Escape(s)| + 1
  {
    hide Escape;
    NoNul(src, start, s);
    var size := EscapedSize(src, start, s);
    r := new char[size + 1];
    var p, q := start, 0;
    EscapeNone();
    ghost var done := Escape(s[..0]);
    while src[p] != NUL
      invariant start <= p <= start + |s| && done == Escape(s[..p - start]) && q == |done| <= size
      invariant forall i | 0 <= i < q :: r[i] == done[i]
      decreases start + |s| - p
    {
      EscapeMore(s, p - start);
      if src[p] == '"' || src[p] == '\\' || src[p] == '\'' {
        r[q] := '\\';
        r[q + 1] := src[p];
        q := q + 2;
      } else {
        r[q] := src[p];
        q := q + 1;
      }
      p := p + 1;
      done := Escape(s[..p - start]);
    }
    assert s[..p - start] == s;
    r[q] := NUL;
  }

  // ---------------------------------------------------------------- round trip

  function Quote(x: string): string {
    "\"" + Escape(x) + "\""
  }

  /** The words, escaped, in double quotes, with a space between each two. */
  function QuoteAll(xs: seq<string>): string
    requires xs != []
  {
    if |xs| == 1 then Quote(xs[0]) else Quote(xs[0]) + " " + QuoteAll(xs[1..])
  }

  function Shift(n: nat, w: string, scan: Scan): Scan {
    Scan(w + scan.word, n + scan.used)
  }

  /** Inside double quotes an escaped character is read back as it was. */
  lemma ScanChar(c: char, u: string, delim: string)
    requires c != '\n'
    ensures ScanFrom(EscapeChar(c) + u, delim, '"', false)
         == Shift(|EscapeChar(c)|, [c], ScanFrom(u, delim, '"', false))
  {
    if Special(c) {
      var s := ['\\'] + ([c] + u);
      assert EscapeChar(c) + u == s;
      assert s[1..] == [c] + u && ([c] + u)[1..] == u;
    } else {
      assert ([c] + u)[1..] == u;
    }
  }

  /** An escaped word without a newline is read back whole. */
  lemma {:induction false} ScanEscaped(x: string, t: string, delim: string)
    requires '\n' !in x
    ensures ScanFrom(Escape(x) + t, delim, '"', false) == Shift(|Escape(x)|, x, ScanFrom(t, delim, '"', false))
  {
    hide ScanFrom, EscapeChar;
    if x == [] {
      assert Escape(x) + t == t;
    } else {
      ScanEscaped(x[1..], t, delim);
      ScanChar(x[0], Escape(x[1..]) + t, delim);
      assert Escape(x) + t == EscapeChar(x[0]) + (Escape(x[1..]) + t);
      assert x == [x[0]] + x[1..];
    }
  }

  /** With a newline in it the word comes back too short. */
  lemma {:induction false} ScanBroken(x: string, t: string, delim: string)
    requires '\n' in x
    ensures |ScanFrom(Escape(x) + t, delim, '"', false).word| < |x|
  {
    var rest := Escape(x[1..]) + t;
    assert Escape(x) + t == EscapeChar(x[0]) + rest;
    if x[0] != '\n' {
      hide ScanFrom, EscapeChar;
      ScanBroken(x[1..], t, delim);
      ScanChar(x[0], rest, delim);
    }
  }

  // ---------------------------------------------------------------- every way of writing a word

  /** A part of a word: a character as it is, one behind a backslash, or a run in either kind of quotes. */
  datatype Piece = Bare(c: char) | Behind(c: char) | Double(s: string) | Single(s: string)

  function Written(p: Piece): string {
    match p
    case Bare(c) => [c]
    case Behind(c) => ['\\', c]
    case Double(s) => "\"" + (Escape(s) + "\"")
    case Single(s) => "'" + (s + "'")
  }

  function Meant(p: Piece): string {
    match p
    case Bare(c) => [c]
    case Behind(c) => [c]
    case Double(s) => s
    case Single(s) => s
  }

  predicate WellWritten(p: Piece, delim: string) {
    match p
    case Bare(c) => !Special(c) && c != '\n' && c !in delim
    case Behind(c) => c != '\n'
    case Double(s) => '\n' !in s
    case Single(s) => '\n' !in s && '\'' !in s
  }

  function AllWritten(ps: seq<Piece>): string {
    if ps == [] then [] else Written(ps[0]) + AllWritten(ps[1..])
  }

  function AllMeant(ps: seq<Piece>): string {
    if ps == [] then [] else Meant(ps[0]) + AllMeant(ps[1..])
  }

  /** A quote opens and closes; what stands between single quotes is kept as it is. */
  lemma QuoteSteps(q: char, c: char, t: string, delim: string)
    requires q == '"' || q == '\''
    ensures ScanFrom([q] + t, delim, NUL, false) == Drop(ScanFrom(t, delim, q, false))
    ensures ScanFrom([q] + t, delim, q, false) == Drop(ScanFrom(t, delim, NUL, false))
    ensures c != '\n' && c != '\'' ==>
      ScanFrom([c] + t, delim, '\'', false) == Keep(c, ScanFrom(t, delim, '\'', false))
  {
    assert ([q] + t)[1..] == t && ([c] + t)[1..] == t;
  }

  /** In single quotes every character stands for itself, the backslash and the double quote too. */
  lemma {:induction false} ScanSingle(s: string, t: string, delim: string)
    requires '\n' !in s && '\'' !in s
    ensures ScanFrom(s + ("'" + t), delim, '\'', false) == Shift(|s| + 1, s, ScanFrom(t, delim, NUL, false))
  {
    hide ScanFrom;
    if s == [] {
      assert s + ("'" + t) == "'" + t;
      QuoteSteps('\'', 'a', t, delim);
    } else {
      assert s + ("'" + t) == [s[0]] + (s[1..] + ("'" + t)) && s == [s[0]] + s[1..];
      QuoteSteps('\'', s[0], s[1..] + ("'" + t), delim);
      ScanSingle(s[1..], t, delim);
    }
  }

  lemma ScanDouble(s: string, t: string, delim: string)
    requires '\n' !in s
    ensures ScanFrom(Escape(s) + ("\"" + t), delim, '"', false)
         == Shift(|Escape(s)| + 1, s, ScanFrom(t, delim, NUL, false))
  {
    hide Escape, ScanFrom;
    ScanEscaped(s, "\"" + t, delim);
    QuoteSteps('"', 'a', t, delim);
  }

  lemma ScanBare(c: char, t: string, delim: string)
    requires c != '\n'
    ensures !Special(c) && c !in delim ==>
      ScanFrom([c] + t, delim, NUL, false) == Keep(c, ScanFrom(t, delim, NUL, false))
    ensures ScanFrom(['\\', c] + t, delim, NUL, false) == Drop(Keep(c, ScanFrom(t, delim, NUL, false)))
  {
    assert ([c] + t)[1..] == t;
    assert (['\\', c] + t)[1..] == [c] + t;
  }

  lemma ScanPiece(p: Piece, t: string, delim: string)
    requires WellWritten(p, delim)
    ensures ScanFrom(Written(p) + t, delim, NUL, false) == Shift(|Written(p)|, Meant(p), ScanFrom(t, delim, NUL, false))
  {
    hide Escape, ScanFrom;
    match p
    case Bare(c) => ScanBare(c, t, delim);
    case Behind(c) => ScanBare(c, t, delim);
    case Double(s) =>
      assert Written(p) + t == "\"" + (Escape(s) + ("\"" + t));
      QuoteSteps('"', 'a', Escape(s) + ("\"" + t), delim);
      ScanDouble(s, t, delim);
    case Single(s) =>
      assert Written(p) + t == "'" + (s + ("'" + t));
      QuoteSteps('\'', 'a', s + ("'" + t), delim);
      ScanSingle(s, t, delim);
  }

  /** A word is what its pieces mean, up to the end, a newline or a separator. */
  lemma {:induction false} ScanPieces(ps: seq<Piece>, t: string, delim: string)
    requires forall p | p in ps :: WellWritten(p, delim)
    ensures ScanFrom(AllWritten(ps) + t, delim, NUL, false)
         == Shift(|AllWritten(ps)|, AllMeant(ps), ScanFrom(t, delim, NUL, false))
    decreases |ps|
  {
    hide ScanFrom, Written, Meant, WellWritten;
    if ps == [] {
      assert AllWritten(ps) + t == t;
    } else {
      assert ps[0] in ps;
      ScanPieces(ps[1..], t, delim);
      ScanPiece(ps[0], AllWritten(ps[1..]) + t, delim);
      assert AllWritten(ps) + t == Written(ps[0]) + (AllWritten(ps[1..]) + t);
      ShiftTwice(|Written(ps[0])|, Meant(ps[0]), |AllWritten(ps[1..])|, AllMeant(ps[1..]),
                 ScanFrom(t, delim, NUL, false));
    }
  }

  lemma ShiftTwice(n: nat, w: string, m: nat, v: string, scan: Scan)
    ensures Shift(n, w, Shift(m, v, scan)) == Shift(n + m, w + v, scan)
  {
    assert w + (v + scan.word) == (w + v) + scan.word;
  }

  /** Separators are passed over, however many. */
  lemma {:induction false} SkipAll(seps: string, rest: string, delim: string)
    requires (forall c | c in seps :: c in delim) && (rest != [] ==> rest[0] !in delim)
    ensures SkipDelim(seps + rest, delim) == rest
  {
    if seps == [] {
      assert seps + rest == rest;
    } else {
      assert (seps + rest)[0] == seps[0] && (seps + rest)[1..] == seps[1..] + rest;
      assert seps[0] in seps;
      SkipAll(seps[1..], rest, delim);
    }
  }

  /**
   A word written in pieces is taken off a line as what they mean. Behind it comes the
   end, a newline or separators; what is left starts at the next word, or at the
   newline, unless every piece is a character as it is and the newline ends the word.
   */
  lemma WordOfPieces(ps: seq<Piece>, seps: string, rest: string, delim: string)
    requires forall p | p in ps :: WellWritten(p, delim)
    requires forall c | c in seps :: c in delim && !Special(c) && c != '\n'
    requires rest != [] ==> rest[0] !in delim && (seps == [] ==> rest[0] == '\n')
    ensures Word(AllWritten(ps) + (seps + rest), delim) == AllMeant(ps)
    ensures Left(AllWritten(ps) + (seps + rest), delim)
         == if seps == [] && |AllMeant(ps)| == |AllWritten(ps)| then [] else rest
  {
    hide WellWritten, AllWritten, AllMeant, SkipDelim;
    var t, n := seps + rest, |AllWritten(ps)|;
    ScanPieces(ps, t, delim);
    MeantWithin(ps);
    assert AllMeant(ps) + [] == AllMeant(ps);
    if seps == [] {
      assert t == rest && (AllWritten(ps) + t)[n..] == rest;
      SkipAll([], rest, delim);
      assert [] + rest == rest;
    } else {
      assert t[0] == seps[0] && seps[0] in seps;
      assert (AllWritten(ps) + t)[n + 1..] == seps[1..] + rest;
      SkipAll(seps[1..], rest, delim);
    }
  }

  lemma {:induction false} MeantWithin(ps: seq<Piece>)
    ensures |AllMeant(ps)| <= |AllWritten(ps)|
  {
    if ps != [] {
      MeantWithin(ps[1..]);
      if ps[0].Double? {
        EscapeLength(ps[0].s);
      }
    }
  }

  /** After the closing quote comes the end of the line or a separator. */
  lemma ScanClosing(t: string, delim: string)
    requires ' ' in delim && (t == [] || t[0] == ' ')
    ensures ScanFrom("\"" + t, delim, '"', false) == Scan([], if t == [] then 1 else 2)
  {
    assert ("\"" + t)[1..] == t;
  }

  lemma ScanQuoted(x: string, t: string, delim: string)
    requires ' ' in delim && (t == [] || t[0] == ' ')
    ensures '\n' in x ==> |ScanFrom(Quote(x) + t, delim, NUL, false).word| < |x|
    ensures '\n' !in x ==> ScanFrom(Quote(x) + t, delim, NUL, false) == Scan(x, |Quote(x)| + if t == [] then 0 else 1)
  {
    var s, u := Quote(x) + t, "\"" + t;
    assert s == "\"" + (Escape(x) + u);
    assert s[1..] == Escape(x) + u;
    assert ScanFrom(s, delim, NUL, false) == Drop(ScanFrom(s[1..], delim, '"', false));
    hide ScanFrom, Escape;
    if '\n' in x {
      ScanBroken(x, u, delim);
    } else {
      ScanEscaped(x, u, delim);
      ScanClosing(t, delim);
    }
  }

  /** A quoted word at the front of a line, with nothing or a space behind it. */
  lemma FirstWord(x: string, t: string, delim: string)
    requires ' ' in delim && (t == [] || t[0] == ' ')
    ensures '\n' in x ==> |Word(Quote(x) + t, delim)| < |x|
    ensures '\n' !in x ==> Word(Quote(x) + t, delim) == x
    ensures '\n' !in x ==> Left(Quote(x) + t, delim) == if t == [] then [] else SkipDelim(t[1..], delim)
  {
    hide ScanFrom, SkipDelim, Quote;
    ScanQuoted(x, t, delim);
    QuoteLength(x);
    if t == [] {
      assert (Quote(x) + t)[|Quote(x)|..] == [];
      SkipNone(delim);
    } else {
      assert (Quote(x) + t)[|Quote(x)| + 1..] == t[1..];
    }
  }

  lemma SkipNone(delim: string)
    ensures SkipDelim([], delim) == []
  {
  }

  lemma QuoteLength(x: string)
    ensures |Quote(x)| > |x|
  {
    EscapeLength(x);
  }

  lemma {:induction false} EscapeLength(x: string)
    ensures |Escape(x)| >= |x|
  {
    if x != [] {
      EscapeLength(x[1..]);
    }
  }

  /**
   What was escaped, quoted and joined is cut back into the same list, exactly
   when no word has a newline in it.
   */
  lemma {:induction false} RoundTripIff(xs: seq<string>, delim: string)
    requires xs != [] && ' ' in delim && '"' !in delim
    ensures Words(QuoteAll(xs), delim) == xs <==> forall i | 0 <= i < |xs| :: '\n' !in xs[i]
  {
    hide Words, QuoteAll, Word;
    var x, rest := xs[0], xs[1..];
    assert xs == [x] + rest;
    if rest == [] {
      assert xs == [x];
      LastQuoted(x, delim);
    } else {
      MoreQuoted(x, rest, delim);
      RoundTripIff(rest, delim);
      SameList(Words(QuoteAll(rest), delim), x, rest);
      OneLineFirst(x, rest);
    }
  }

  /** The words of a list with one quoted word. */
  lemma LastQuoted(x: string, delim: string)
    requires ' ' in delim
    ensures Words(QuoteAll([x]), delim) == [x] <==> '\n' !in x
  {
    hide ScanFrom, Word, Left;
    FirstWord(x, [], delim);
    assert QuoteAll([x]) == Quote(x) + [];
    assert '\n' in x ==> Words(QuoteAll([x]), delim)[0] == Word(QuoteAll([x]), delim) != [x][0];
  }

  /** The words of a longer list: the first is cut short by a newline, or the others follow. */
  lemma MoreQuoted(x: string, rest: seq<string>, delim: string)
    requires rest != [] && ' ' in delim && '"' !in delim
    ensures var s := QuoteAll([x] + rest);
            if '\n' in x then Words(s, delim) != [] && Words(s, delim)[0] != x
            else Words(s, delim) == [x] + Words(QuoteAll(rest), delim)
  {
    hide ScanFrom, Word, Left;
    var s, later := QuoteAll([x] + rest), QuoteAll(rest);
    assert ([x] + rest)[1..] == rest;
    assert s == Quote(x) + (" " + later);
    FirstWord(x, " " + later, delim);
    assert (" " + later)[1..] == later && later[0] == '"';
    assert SkipDelim(later, delim) == later;
    assert Words(s, delim)[0] == Word(s, delim);
  }

  lemma SameList<T>(ws: seq<T>, x: T, xs: seq<T>)
    ensures [x] + ws == [x] + xs <==> ws == xs
  {
    assert ([x] + ws)[1..] == ws && ([x] + xs)[1..] == xs;
  }

  lemma OneLineFirst(x: string, xs: seq<string>)
    ensures (forall i | 0 <= i < |[x] + xs| :: '\n' !in ([x] + xs)[i])
       <==> '\n' !in x && forall i | 0 <= i < |xs| :: '\n' !in xs[i]
  {
    assert ([x] + xs)[0] == x;
    forall i | 0 <= i < |xs|
      ensures xs[i] == ([x] + xs)[i + 1]
    {
    }
  }
}
