/** The settings in brackets behind a DBML column: taking them out of the line and splitting them at the
    commas that stand outside quotes. */
module DbmlSettings {
  import opened Rows

  predicate IsQuote(c: char) {
    c == '\'' || c == '"' || c == '`'
  }

  /** The quote in force after `c`, of the one before it; a backslash in front keeps a quote open. */
  function Next(quote: Option<char>, previous: char, c: char): Option<char> {
    if quote.Some? then if c == quote.value && previous != '\\' then None else quote
    else if IsQuote(c) then Some(c)
    else None
  }

  /** The quote in force before the `i`-th character. */
  function QuoteAt(s: string, i: nat): Option<char>
    requires i <= |s|
  {
    if i == 0 then None else Next(QuoteAt(s, i - 1), if i >= 2 then s[i - 2] else ' ', s[i - 1])
  }

  /** White space and line terminators of ECMA-262 (sections 12.2 and 12.3), which `trim` strips. */
  predicate IsSpace(c: char) {
    || c == ' ' || ('\t' <= c <= '\r') || c == '\U{A0}' || c == '\U{1680}' || ('\U{2000}' <= c <= '\U{200A}')
    || c == '\U{2028}' || c == '\U{2029}' || c == '\U{202F}' || c == '\U{205F}' || c == '\U{3000}' || c == '\U{FEFF}'
  }

  function Trim(s: string): string {
    if s != "" && IsSpace(s[0]) then Trim(s[1..])
    else if s != "" && IsSpace(s[|s| - 1]) then Trim(s[..|s| - 1])
    else s
  }

  /** `filter(Boolean)` after trimming each piece. */
  function Kept(pieces: seq<string>): seq<string> {
    if pieces == [] then []
    else
      var last := Trim(pieces[|pieces| - 1]);
      Kept(pieces[..|pieces| - 1]) + if last == "" then [] else [last]
  }

  /** A character outside quotes. */
  predicate Bare(s: string, i: nat, c: char)
    requires i < |s|
  {
    s[i] == c && QuoteAt(s, i).None?
  }

  /** Where the piece begins that the `n`-th character would go on. */
  function Start(s: string, n: nat): (start: nat)
    requires n <= |s|
    ensures start <= n
  {
    if n == 0 then 0 else if Bare(s, n - 1, ',') then n else Start(s, n - 1)
  }

  /** The pieces that bare commas have closed within the first `n` characters. */
  function Closed(s: string, n: nat): seq<string>
    requires n <= |s|
  {
    if n == 0 then []
    else if Bare(s, n - 1, ',') then Closed(s, n - 1) + [s[Start(s, n - 1)..n - 1]]
    else Closed(s, n - 1)
  }

  function Pieces(s: string): seq<string> {
    Closed(s, |s|) + [s[Start(s, |s|)..]]
  }

  method SplitSettings(settings: string) returns (result: seq<string>)
    ensures result == Kept(Pieces(settings))
  {
    var pushed: seq<string> := [];
    var quote: Option<char> := None;
    var start := 0;
    for index := 0 to |settings|
      invariant quote == QuoteAt(settings, index) && start == Start(settings, index)
      invariant pushed == Closed(settings, index)
    {
      var c := settings[index];
      if quote.Some? {
        if c == quote.value && settings[index - 1] != '\\' {
          quote := None;
        }
        continue;
      }
      if IsQuote(c) {
        quote := Some(c);
        continue;
      }
      if c == ',' {
        pushed := pushed + [settings[start..index]];
        start := index + 1;
      }
    }
    pushed := pushed + [settings[start..]];
    result := [];
    for k := 0 to |pushed|
      invariant result == Kept(pushed[..k])
    {
      assert pushed[..k + 1][..k] == pushed[..k];
      var item := Trim(pushed[k]);
      if item != "" {
        result := result + [item];
      }
    }
    assert pushed[..|pushed|] == pushed;
  }

  // ── Splitting undoes joining ──

  /** Every quote is closed, and commas occur inside quotes only. */
  predicate Balanced(piece: string) {
    && QuoteAt(piece, |piece|).None?
    && forall i :: 0 <= i < |piece| ==> !Bare(piece, i, ',')
  }

  function Join(pieces: seq<string>): string {
    if pieces == [] then ""
    else if |pieces| == 1 then pieces[0]
    else Join(pieces[..|pieces| - 1]) + "," + pieces[|pieces| - 1]
  }

  lemma {:induction false} QuotePrefix(s: string, t: string, i: nat)
    requires i <= |s|
    ensures QuoteAt(s + t, i) == QuoteAt(s, i)
  {
    if i != 0 {
      QuotePrefix(s, t, i - 1);
    }
  }

  /** Behind a text that closes its quotes, quoting starts afresh. */
  lemma {:induction false} QuoteAfresh(s: string, t: string, i: nat)
    requires QuoteAt(s, |s|).None? && i <= |t|
    ensures QuoteAt(s + t, |s| + i) == QuoteAt(t, i)
  {
    if i == 0 {
      QuotePrefix(s, t, |s|);
    } else {
      QuoteAfresh(s, t, i - 1);
    }
  }

  lemma {:induction false} ClosedPrefix(s: string, t: string, n: nat)
    requires n <= |s|
    ensures Start(s + t, n) == Start(s, n) && Closed(s + t, n) == Closed(s, n)
  {
    if n != 0 {
      QuotePrefix(s, t, n - 1);
      ClosedPrefix(s, t, n - 1);
      assert (s + t)[Start(s, n - 1)..n - 1] == s[Start(s, n - 1)..n - 1];
    }
  }

  /** A stretch without bare commas closes nothing. */
  lemma {:induction false} NothingCloses(s: string, from: nat, n: nat)
    requires from <= n <= |s|
    requires forall i :: from <= i < n ==> !Bare(s, i, ',')
    ensures Start(s, n) == Start(s, from) && Closed(s, n) == Closed(s, from)
    decreases n
  {
    if from < n {
      NothingCloses(s, from, n - 1);
    }
  }

  /** Behind a bare comma, too. */
  lemma QuoteBehindComma(s: string, piece: string, i: nat)
    requires QuoteAt(s, |s|).None? && i <= |piece|
    ensures QuoteAt(s + "," + piece, |s| + 1 + i) == QuoteAt(piece, i)
  {
    QuoteAfresh(s, ",", 1);
    assert QuoteAt(",", 1).None?;
    QuoteAfresh(s + ",", piece, i);
  }

  lemma CommaIsBare(s: string, piece: string)
    requires QuoteAt(s, |s|).None?
    ensures Bare(s + "," + piece, |s|, ',')
  {
    assert s + "," + piece == s + ("," + piece);
    QuotePrefix(s, "," + piece, |s|);
  }

  lemma NothingClosesBehind(s: string, piece: string)
    requires QuoteAt(s, |s|).None? && Balanced(piece)
    ensures var t := s + "," + piece;
      Start(t, |t|) == Start(t, |s| + 1) && Closed(t, |t|) == Closed(t, |s| + 1)
  {
    var t := s + "," + piece;
    forall i | |s| + 1 <= i < |t|
      ensures !Bare(t, i, ',')
    {
      QuoteBehindComma(s, piece, i - |s| - 1);
      assert !Bare(piece, i - |s| - 1, ',');
    }
    NothingCloses(t, |s| + 1, |t|);
  }

  lemma PiecesOfAppended(s: string, piece: string)
    requires QuoteAt(s, |s|).None? && Balanced(piece)
    ensures Pieces(s + "," + piece) == Pieces(s) + [piece]
  {
    var t, tail := s + "," + piece, "," + piece;
    assert t == s + tail;
    ClosedPrefix(s, tail, |s|);
    CommaIsBare(s, piece);
    NothingClosesBehind(s, piece);
    assert t[Start(t, |s|)..|s|] == s[Start(s, |s|)..];
    assert t[|s| + 1..] == piece;
  }

  lemma {:induction false} JoinClosesQuotes(pieces: seq<string>)
    requires forall k :: 0 <= k < |pieces| ==> Balanced(pieces[k])
    ensures QuoteAt(Join(pieces), |Join(pieces)|).None?
  {
    if |pieces| > 1 {
      var last := pieces[|pieces| - 1];
      JoinClosesQuotes(pieces[..|pieces| - 1]);
      QuoteBehindComma(Join(pieces[..|pieces| - 1]), last, |last|);
    }
  }

  lemma {:induction false} PiecesOfJoin(pieces: seq<string>)
    requires pieces != [] && forall k :: 0 <= k < |pieces| ==> Balanced(pieces[k])
    ensures Pieces(Join(pieces)) == pieces
  {
    var front, last := pieces[..|pieces| - 1], pieces[|pieces| - 1];
    assert pieces == front + [last];
    if front == [] {
      NothingCloses(last, 0, |last|);
      assert last[0..] == last;
    } else {
      PiecesOfJoin(front);
      JoinClosesQuotes(front);
      PiecesOfAppended(Join(front), last);
    }
  }

  /** A setting as it is meant: not empty, trimmed, with its quotes closed around any comma. */
  predicate Setting(item: string) {
    item != "" && Trim(item) == item && Balanced(item)
  }

  lemma {:induction false} KeptSettings(items: seq<string>)
    requires forall k :: 0 <= k < |items| ==> Setting(items[k])
    ensures Kept(items) == items
  {
    if items != [] {
      KeptSettings(items[..|items| - 1]);
    }
  }

  /** Splitting the comma-join of any list of settings gives the list back. */
  lemma SplitOfJoin(items: seq<string>)
    requires forall k :: 0 <= k < |items| ==> Setting(items[k])
    ensures Kept(Pieces(Join(items))) == items
  {
    if items == [] {
      assert Pieces("") == [""];
      assert [""][..0] == [];
    } else {
      PiecesOfJoin(items);
      KeptSettings(items);
    }
  }

  lemma {:induction false} StartIsClosed(s: string, n: nat)
    requires n <= |s|
    ensures QuoteAt(s, Start(s, n)).None?
  {
    if n != 0 && Bare(s, n - 1, ',') {
      assert QuoteAt(s, n) == Next(None, if n >= 2 then s[n - 2] else ' ', ',');
    } else if n != 0 {
      StartIsClosed(s, n - 1);
    }
  }

  lemma JoinGrows(front: seq<string>, piece: string, c: char)
    ensures Join(front + [piece + [c]]) == Join(front + [piece]) + [c]
    ensures Join(front + [piece] + [""]) == Join(front + [piece]) + ","
  {
    var a, b, d := front + [piece + [c]], front + [piece], front + [piece] + [""];
    assert a[..|a| - 1] == front && b[..|b| - 1] == front && d[..|d| - 1] == b;
    if front == [] {
      assert a == [piece + [c]] && b == [piece];
    }
  }

  lemma {:induction false} JoinOfClosed(s: string, n: nat)
    requires n <= |s|
    ensures Join(Closed(s, n) + [s[Start(s, n)..n]]) == s[..n]
  {
    if n != 0 {
      var m := n - 1;
      var piece := s[Start(s, m)..m];
      JoinOfClosed(s, m);
      JoinGrows(Closed(s, m), piece, s[m]);
      assert s[..n] == s[..m] + [s[m]];
      if Bare(s, m, ',') {
        assert s[n..n] == "";
      } else {
        assert s[Start(s, n)..n] == piece + [s[m]];
      }
    }
  }

  /** From a place outside quotes on, quoting is what it is in the stretch alone. */
  lemma {:induction false} QuoteWithin(s: string, from: nat, to: nat, i: nat)
    requires from <= to <= |s| && QuoteAt(s, from).None? && i <= to - from
    ensures QuoteAt(s[from..to], i) == QuoteAt(s, from + i)
  {
    if i != 0 {
      QuoteWithin(s, from, to, i - 1);
    }
  }

  /** No bare comma between the beginning of the piece and here. */
  lemma {:induction false} SinceStart(s: string, n: nat, i: nat)
    requires n <= |s| && Start(s, n) <= i < n
    ensures !Bare(s, i, ',')
  {
    if i < n - 1 {
      SinceStart(s, n - 1, i);
    }
  }

  lemma ClosedPieceIsBalanced(s: string, to: nat)
    requires to <= |s| && QuoteAt(s, to).None?
    ensures Balanced(s[Start(s, to)..to])
  {
    var from := Start(s, to);
    StartIsClosed(s, to);
    QuoteWithin(s, from, to, to - from);
    forall i | 0 <= i < to - from
      ensures !Bare(s[from..to], i, ',')
    {
      QuoteWithin(s, from, to, i);
      SinceStart(s, to, from + i);
    }
  }

  lemma {:induction false} ClosedAreBalanced(s: string, n: nat, k: nat)
    requires n <= |s| && k < |Closed(s, n)|
    ensures Balanced(Closed(s, n)[k])
  {
    if k == |Closed(s, n)| - 1 && Bare(s, n - 1, ',') {
      ClosedPieceIsBalanced(s, n - 1);
    } else {
      ClosedAreBalanced(s, n - 1, k);
    }
  }

  /** The other way round: whatever the text, its pieces join to it again, and none but perhaps the last
      has a quote open at its end or a comma outside quotes, so no cut was made inside a quoted span. */
  lemma JoinOfPieces(s: string)
    ensures Join(Pieces(s)) == s
    ensures forall k :: 0 <= k < |Pieces(s)| - 1 ==> Balanced(Pieces(s)[k])
    ensures QuoteAt(s, |s|).None? ==> Balanced(Pieces(s)[|Pieces(s)| - 1])
  {
    JoinOfClosed(s, |s|);
    forall k | 0 <= k < |Closed(s, |s|)|
      ensures Balanced(Closed(s, |s|)[k])
    {
      ClosedAreBalanced(s, |s|, k);
    }
    assert s[..|s|] == s && s[Start(s, |s|)..|s|] == s[Start(s, |s|)..];
    if QuoteAt(s, |s|).None? {
      ClosedPieceIsBalanced(s, |s|);
    }
  }

  // ── Taking the settings out of the line ──

  /** The first place of `c` in `s`, if any. */
  predicate FirstOf(s: string, c: char, i: nat) {
    i < |s| && s[i] == c && forall j :: 0 <= j < i ==> s[j] != c
  }

  /** The first closing bracket outside quotes. */
  predicate Closes(s: string, i: nat) {
    i < |s| && Bare(s, i, ']') && forall j :: 0 <= j < i ==> !Bare(s, j, ']')
  }

  /** The first opening bracket of the line and the first bare closing bracket behind it. */
  predicate Encloses(line: string, open: int, end: int) {
    0 <= open < end && FirstOf(line, '[', open) && Closes(line[open + 1..], end - open - 1)
  }

  lemma EnclosesOnce(line: string, open: int, end: int, open': int, end': int)
    requires Encloses(line, open, end) && Encloses(line, open', end')
    ensures open == open' && end == end'
  {
  }

  predicate BracketsQuoted(s: string) {
    forall i :: 0 <= i < |s| ==> !Bare(s, i, ']')
  }

  lemma EnclosesBare(line: string, open: nat, o: int, e: int)
    requires FirstOf(line, '[', open) && Encloses(line, o, e)
    ensures !BracketsQuoted(line[open + 1..])
  {
    assert o == open;
    assert Bare(line[open + 1..], e - open - 1, ']');
  }

  lemma NothingEncloses(line: string, open: nat)
    requires FirstOf(line, '[', open) && BracketsQuoted(line[open + 1..])
    ensures forall o, e :: !Encloses(line, o, e)
  {
    forall o, e
      ensures !Encloses(line, o, e)
    {
      if Encloses(line, o, e) {
        EnclosesBare(line, open, o, e);
      }
    }
  }

  method IndexOf(s: string, c: char) returns (i: int)
    ensures i >= 0 ==> FirstOf(s, c, i)
    ensures i < 0 <==> c !in s
  {
    for k := 0 to |s|
      invariant c !in s[..k]
    {
      if s[k] == c {
        return k;
      }
    }
    return -1;
  }

  method ExtractBracketSettings(line: string) returns (settings: string)
    ensures '[' !in line ==> settings == ""
    ensures forall open, end :: Encloses(line, open, end) ==> settings == line[open + 1..end]
    ensures (forall open, end :: !Encloses(line, open, end)) ==> settings == ""
  {
    var open := IndexOf(line, '[');
    if open < 0 {
      return "";
    }
    ghost var tail := line[open + 1..];
    var quote: Option<char> := None;
    for index := open + 1 to |line|
      invariant quote == QuoteAt(tail, index - open - 1)
      invariant forall j :: 0 <= j < index - open - 1 ==> !Bare(tail, j, ']')
    {
      var c := line[index];
      assert c == tail[index - open - 1];
      if quote.Some? {
        if c == quote.value && line[index - 1] != '\\' {
          quote := None;
        }
        continue;
      }
      if IsQuote(c) {
        quote := Some(c);
        continue;
      }
      if c == ']' {
        assert Encloses(line, open, index);
        forall o, e | Encloses(line, o, e)
          ensures o == open && e == index
        {
          EnclosesOnce(line, o, e, open, index);
        }
        return line[open + 1..index];
      }
    }
    NothingEncloses(line, open);
    return "";
  }

  lemma ClosesBehind(text: string, rest: string)
    requires QuoteAt(text, |text|).None? && BracketsQuoted(text)
    ensures Closes(text + "]" + rest, |text|)
  {
    var s := text + "]" + rest;
    assert s == text + ("]" + rest);
    forall j | 0 <= j < |text|
      ensures !Bare(s, j, ']')
    {
      QuotePrefix(text, "]" + rest, j);
      assert !Bare(text, j, ']');
    }
    QuotePrefix(text, "]" + rest, |text|);
  }

  /** Printing a list of settings in brackets behind a column and reading the line back, whatever stands
      in front without an opening bracket and whatever behind. */
  method ReadBack(prefix: string, items: seq<string>, rest: string) returns (read: seq<string>)
    requires '[' !in prefix && BracketsQuoted(Join(items))
    requires forall k :: 0 <= k < |items| ==> Setting(items[k])
    ensures read == items
  {
    var line := prefix + "[" + Join(items) + "]" + rest;
    assert FirstOf(line, '[', |prefix|);
    assert line[|prefix| + 1..] == Join(items) + "]" + rest;
    JoinClosesQuotes(items);
    ClosesBehind(Join(items), rest);
    var settings := ExtractBracketSettings(line);
    assert Encloses(line, |prefix|, |prefix| + 1 + |Join(items)|);
    assert settings == Join(items);
    read := SplitSettings(settings);
    SplitOfJoin(items);
  }
}
