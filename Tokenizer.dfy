/** parse_cmd_line: the tokenizer shared, character for character, by
    6-RShell/starter/dshlib.c and 4-ShellP2/starter/dshlib.c. It trims the
    line, copies it, and then edits the copy in place: opening and closing
    quote characters are deleted with memmove, an unquoted space becomes the
    NUL that ends one argument, the spaces after it are deleted, and argv
    records where each argument starts. */
module Tokenizer {
  import opened Text
  import opened Limits

  datatype ParseResult =
    | Parsed(argv: seq<string>)
    | WarnNoCmds
    | ErrTooManyCommands
    | ErrCmdOrArgsTooBig

  /** `s` without its leading spaces (plain ' ' only, as the memmove loop). */
  function DropSpaces(s: string): (r: string)
    ensures |r| <= |s|
    ensures r == [] || r[0] != ' '
  {
    if s != [] && s[0] == ' ' then DropSpaces(s[1..]) else s
  }

  lemma {:induction false} DropSpacesSuffix(s: string)
    ensures DropSpaces(s) == s[|s| - |DropSpaces(s)|..]
    ensures forall k :: 0 <= k < |s| - |DropSpaces(s)| ==> s[k] == ' '
  {
    if s != [] && s[0] == ' ' {
      DropSpacesSuffix(s[1..]);
      assert s[1..][|s| - 1 - |DropSpaces(s)|..] == s[|s| - |DropSpaces(s)|..];
    }
  }

  /** The reference tokenizer, read left to right over the raw remainder
      `rest`: `st` is the quote state, `cur` the argument being built and
      `acc` the finished ones. Quote characters that open or close a quote
      are dropped; a space outside quotes ends the current argument and
      swallows the spaces after it; every other character is kept. */
  function Scan(rest: string, st: QuoteState, cur: string, acc: seq<string>): seq<string>
    decreases |rest|
  {
    if rest == [] then acc + [cur]
    else
      var c := rest[0];
      if st == Unquoted && IsQuote(c) then Scan(rest[1..], Quoted(c), cur, acc)
      else if st.Quoted? && c == st.closer then Scan(rest[1..], Unquoted, cur, acc)
      else if st == Unquoted && c == ' ' then Scan(DropSpaces(rest[1..]), Unquoted, [], acc + [cur])
      else Scan(rest[1..], st, cur + [c], acc)
  }

  /** The arguments of an already trimmed command. */
  function Tokens(t: string): seq<string>
  {
    Scan(t, Unquoted, [], [])
  }

  /** What parse_cmd_line reports for `line`. The argument-count limit is
      checked while scanning and therefore wins over the length limit. */
  function ParseOutcome(line: string): ParseResult
  {
    var t := Trimmed(line);
    if t == [] then WarnNoCmds
    else
      var toks := Tokens(t);
      if |toks| > CMD_ARGV_MAX - 1 then ErrTooManyCommands
      else if exists k :: 0 <= k < |toks| && |toks[k]| >= ARG_MAX then ErrCmdOrArgsTooBig
      else Parsed(toks)
  }

  // ---------------------------------------------------------------------
  // Properties of the reference tokenizer

  lemma {:induction false} ScanGrows(rest: string, st: QuoteState, cur: string, acc: seq<string>)
    ensures |Scan(rest, st, cur, acc)| >= |acc| + 1
    ensures Scan(rest, st, cur, acc)[..|acc|] == acc
    decreases |rest|
  {
    if rest != [] {
      var c := rest[0];
      if st == Unquoted && IsQuote(c) {
        ScanGrows(rest[1..], Quoted(c), cur, acc);
      } else if st.Quoted? && c == st.closer {
        ScanGrows(rest[1..], Unquoted, cur, acc);
      } else if st == Unquoted && c == ' ' {
        ScanGrows(DropSpaces(rest[1..]), Unquoted, [], acc + [cur]);
        assert (acc + [cur])[..|acc|] == acc;
      } else {
        ScanGrows(rest[1..], st, cur + [c], acc);
      }
    }
  }

  /** Every command that is not empty has at least one argument. */
  lemma TokensNonEmpty(t: string)
    ensures |Tokens(t)| >= 1
  {
    ScanGrows(t, Unquoted, [], []);
  }

  /** A command that parses is its own tokens, at least one and at most
      CMD_ARGV_MAX - 1 of them, each shorter than ARG_MAX. */
  lemma ParsedShape(line: string, argv: seq<string>)
    requires ParseOutcome(line) == Parsed(argv)
    ensures argv == Tokens(Trimmed(line)) && 1 <= |argv| <= CMD_ARGV_MAX - 1
    ensures forall k :: 0 <= k < |argv| ==> |argv[k]| < ARG_MAX
  {
    TokensNonEmpty(Trimmed(line));
  }

  predicate PlainWord(w: string)
  {
    forall k :: 0 <= k < |w| ==> w[k] != ' ' && !IsQuote(w[k])
  }

  lemma {:induction false} ScanPlain(w: string, r: string, cur: string, acc: seq<string>)
    requires PlainWord(w)
    ensures Scan(w + r, Unquoted, cur, acc) == Scan(r, Unquoted, cur + w, acc)
    decreases |w|
  {
    if w != [] {
      assert (w + r)[0] == w[0] && (w + r)[1..] == w[1..] + r;
      ScanPlain(w[1..], r, cur + [w[0]], acc);
      assert cur + [w[0]] + w[1..] == cur + w;
    } else {
      assert w + r == r && cur + w == cur;
    }
  }

  lemma {:induction false} ScanInQuote(w: string, r: string, q: char, cur: string, acc: seq<string>)
    requires q !in w
    ensures Scan(w + r, Quoted(q), cur, acc) == Scan(r, Quoted(q), cur + w, acc)
    decreases |w|
  {
    if w != [] {
      assert (w + r)[0] == w[0] && (w + r)[1..] == w[1..] + r;
      assert w[0] != q by { assert w[0] in w; }
      ScanInQuote(w[1..], r, q, cur + [w[0]], acc);
      assert cur + [w[0]] + w[1..] == cur + w;
    } else {
      assert w + r == r && cur + w == cur;
    }
  }

  /** An unterminated quote runs to the end of the line, without error. */
  lemma UnterminatedQuote(q: char, w: string)
    requires IsQuote(q) && q !in w
    ensures Tokens([q] + w) == [w]
  {
    assert ([q] + w)[1..] == w + [];
    ScanInQuote(w, [], q, [], []);
    assert [] + w == w;
  }

  /** `w` between two quote characters `q`. */
  function QuotedWith(q: char, w: string): string
  {
    [q] + w + [q]
  }

  /** A quoted word ends up, without its quotes, in the current argument. */
  lemma ScanQuotedWord(q: char, w: string, r: string, cur: string, acc: seq<string>)
    requires IsQuote(q) && q !in w
    ensures Scan(QuotedWith(q, w) + r, Unquoted, cur, acc) == Scan(r, Unquoted, cur + w, acc)
  {
    var s := QuotedWith(q, w) + r;
    assert s[0] == q && s[1..] == w + ([q] + r);
    ScanInQuote(w, [q] + r, q, cur, acc);
    var t := [q] + r;
    assert t[0] == q && t[1..] == r;
  }

  function Spaces(n: nat): (r: string)
    ensures |r| == n && forall k :: 0 <= k < n ==> r[k] == ' '
  {
    if n == 0 then [] else [' '] + Spaces(n - 1)
  }

  /** Words joined by runs of spaces: `gaps[k]` is the length of the run
      between `ws[k]` and `ws[k + 1]`. */
  function JoinWith(ws: seq<string>, gaps: seq<nat>): string
    requires |ws| >= 1 && |gaps| == |ws| - 1
  {
    if |ws| == 1 then ws[0] else ws[0] + Spaces(gaps[0]) + JoinWith(ws[1..], gaps[1..])
  }

  lemma {:induction false} DropSpacesOver(n: nat, r: string)
    requires r == [] || r[0] != ' '
    ensures DropSpaces(Spaces(n) + r) == r
  {
    if n > 0 {
      assert (Spaces(n) + r)[1..] == Spaces(n - 1) + r;
      DropSpacesOver(n - 1, r);
    } else {
      assert Spaces(0) + r == r;
    }
  }

  lemma {:induction false} JoinWithStart(ws: seq<string>, gaps: seq<nat>)
    requires |ws| >= 1 && |gaps| == |ws| - 1 && ws[0] != []
    ensures JoinWith(ws, gaps) != [] && JoinWith(ws, gaps)[0] == ws[0][0]
  {
  }

  /** After a run of at least one unquoted space the scan starts afresh. */
  lemma SpaceRun(n: nat, r: string, cur: string, acc: seq<string>)
    requires n >= 1 && (r == [] || r[0] != ' ')
    ensures Scan(Spaces(n) + r, Unquoted, cur, acc) == Scan(r, Unquoted, [], acc + [cur])
  {
    SpacesTail(n, r);
    DropSpacesOver(n - 1, r);
  }

  lemma SpacesTail(n: nat, r: string)
    requires n >= 1
    ensures Spaces(n) + r != [] && (Spaces(n) + r)[0] == ' ' && (Spaces(n) + r)[1..] == Spaces(n - 1) + r
  {
    assert Spaces(n) + r == [' '] + (Spaces(n - 1) + r);
  }

  lemma JoinWithStep(ws: seq<string>, gaps: seq<nat>)
    requires |ws| >= 2 && |gaps| == |ws| - 1
    ensures JoinWith(ws, gaps) == ws[0] + (Spaces(gaps[0]) + JoinWith(ws[1..], gaps[1..]))
  {
  }

  lemma {:induction false} ScanJoinPlain(ws: seq<string>, gaps: seq<nat>, cur: string, acc: seq<string>)
    requires |ws| >= 1 && |gaps| == |ws| - 1
    requires forall k :: 0 <= k < |ws| ==> ws[k] != [] && PlainWord(ws[k])
    requires forall k :: 0 <= k < |gaps| ==> gaps[k] >= 1
    ensures Scan(JoinWith(ws, gaps), Unquoted, cur, acc) == acc + [cur + ws[0]] + ws[1..]
    decreases |ws|
  {
    if |ws| == 1 {
      ScanPlain(ws[0], [], cur, acc);
      assert ws[0] + [] == ws[0];
    } else {
      var rest := JoinWith(ws[1..], gaps[1..]);
      calc {
        Scan(JoinWith(ws, gaps), Unquoted, cur, acc);
      == { JoinWithStep(ws, gaps); }
        Scan(ws[0] + (Spaces(gaps[0]) + rest), Unquoted, cur, acc);
      == { ScanPlain(ws[0], Spaces(gaps[0]) + rest, cur, acc); }
        Scan(Spaces(gaps[0]) + rest, Unquoted, cur + ws[0], acc);
      == { JoinWithStart(ws[1..], gaps[1..]);
           assert rest[0] != ' ' by { assert ws[1][0] in ws[1]; }
           SpaceRun(gaps[0], rest, cur + ws[0], acc); }
        Scan(rest, Unquoted, [], acc + [cur + ws[0]]);
      == { ScanJoinPlain(ws[1..], gaps[1..], [], acc + [cur + ws[0]]); }
        acc + [cur + ws[0]] + [[] + ws[1]] + ws[2..];
      == { assert [] + ws[1] == ws[1]; assert ws[1..] == [ws[1]] + ws[2..]; }
        acc + [cur + ws[0]] + ws[1..];
      }
    }
  }

  /** Only a plain space separates arguments, and a run of spaces counts
      as one separator: words free of spaces and quotes (they may hold tabs,
      pipes or any other character) come back exactly. */
  lemma TokensOfPlainWords(ws: seq<string>, gaps: seq<nat>)
    requires |ws| >= 1 && |gaps| == |ws| - 1
    requires forall k :: 0 <= k < |ws| ==> ws[k] != [] && PlainWord(ws[k])
    requires forall k :: 0 <= k < |gaps| ==> gaps[k] >= 1
    ensures Tokens(JoinWith(ws, gaps)) == ws
  {
    calc {
      Tokens(JoinWith(ws, gaps));
    == { ScanJoinPlain(ws, gaps, [], []); }
      [] + [[] + ws[0]] + ws[1..];
    == { assert [] + ws[0] == ws[0]; }
      [ws[0]] + ws[1..];
    == 
      ws;
    }
  }

  /** Word `ws[k]` quoted with the quote character `qs[k]`. */
  function QuoteAll(qs: string, ws: seq<string>): (r: seq<string>)
    requires |qs| == |ws|
    ensures |r| == |ws| && forall k :: 0 <= k < |ws| ==> r[k] == QuotedWith(qs[k], ws[k])
  {
    if ws == [] then [] else [QuotedWith(qs[0], ws[0])] + QuoteAll(qs[1..], ws[1..])
  }

  /** Each `qs[k]` is a quote character (`"` or `'`) that does not occur in
      `ws[k]`; the other quote character may. */
  predicate Quotable(qs: string, ws: seq<string>)
  {
    |qs| == |ws| && forall k :: 0 <= k < |ws| ==> IsQuote(qs[k]) && qs[k] !in ws[k]
  }

  /** Scanning past the first quoted word and the spaces after it closes
      that word as one argument. */
  lemma QuotedHead(qs: string, ws: seq<string>, gaps: seq<nat>, cur: string, acc: seq<string>)
    requires |ws| >= 2 && |gaps| == |ws| - 1 && |qs| == |ws|
    requires IsQuote(qs[0]) && qs[0] !in ws[0] && IsQuote(qs[1]) && gaps[0] >= 1
    ensures Scan(JoinWith(QuoteAll(qs, ws), gaps), Unquoted, cur, acc)
         == Scan(JoinWith(QuoteAll(qs[1..], ws[1..]), gaps[1..]), Unquoted, [], acc + [cur + ws[0]])
  {
    var all := QuoteAll(qs, ws);
    var tailQ := QuoteAll(qs[1..], ws[1..]);
    assert all[1..] == tailQ;
    var rest := JoinWith(tailQ, gaps[1..]);
    JoinWithStep(all, gaps);
    ScanQuotedWord(qs[0], ws[0], Spaces(gaps[0]) + rest, cur, acc);
    JoinWithStart(tailQ, gaps[1..]);
    assert rest[0] == qs[1];
    SpaceRun(gaps[0], rest, cur + ws[0], acc);
  }

  lemma {:induction false} ScanJoinQuoted(qs: string, ws: seq<string>, gaps: seq<nat>, cur: string, acc: seq<string>)
    requires |ws| >= 1 && |gaps| == |ws| - 1 && Quotable(qs, ws)
    requires forall k :: 0 <= k < |gaps| ==> gaps[k] >= 1
    ensures Scan(JoinWith(QuoteAll(qs, ws), gaps), Unquoted, cur, acc) == acc + [cur + ws[0]] + ws[1..]
    decreases |ws|
  {
    if |ws| == 1 {
      ScanQuotedWord(qs[0], ws[0], [], cur, acc);
      assert QuotedWith(qs[0], ws[0]) + [] == JoinWith(QuoteAll(qs, ws), gaps);
    } else {
      var tl := ws[1..];
      var tq := qs[1..];
      assert Quotable(tq, tl) by {
        forall k | 0 <= k < |tl| ensures IsQuote(tq[k]) && tq[k] !in tl[k] {
          assert tq[k] == qs[k + 1] && tl[k] == ws[k + 1];
        }
      }
      calc {
        Scan(JoinWith(QuoteAll(qs, ws), gaps), Unquoted, cur, acc);
      == { QuotedHead(qs, ws, gaps, cur, acc); }
        Scan(JoinWith(QuoteAll(tq, tl), gaps[1..]), Unquoted, [], acc + [cur + ws[0]]);
      == { ScanJoinQuoted(tq, tl, gaps[1..], [], acc + [cur + ws[0]]); }
        acc + [cur + ws[0]] + [[] + tl[0]] + tl[1..];
      == { assert [] + tl[0] == tl[0]; assert tl == [tl[0]] + tl[1..]; }
        acc + [cur + ws[0]] + ws[1..];
      }
    }
  }

  /** A quoted argument, in double or in single quotes, keeps everything
      between its quotes literally (spaces, pipes, the other quote
      character), the quotes themselves are removed, and an empty pair
      gives an empty argument. */
  lemma TokensOfQuotedWords(qs: string, ws: seq<string>, gaps: seq<nat>)
    requires |ws| >= 1 && |gaps| == |ws| - 1 && Quotable(qs, ws)
    requires forall k :: 0 <= k < |gaps| ==> gaps[k] >= 1
    ensures Tokens(JoinWith(QuoteAll(qs, ws), gaps)) == ws
  {
    calc {
      Tokens(JoinWith(QuoteAll(qs, ws), gaps));
    == { ScanJoinQuoted(qs, ws, gaps, [], []); }
      [] + [[] + ws[0]] + ws[1..];
    == { assert [] + ws[0] == ws[0]; }
      [ws[0]] + ws[1..];
    == 
      ws;
    }
  }

  /** A plain word, a quoted argument and a plain word, separated by
      single spaces. */
  lemma {:induction false} ThreeArgs(x: string, q: char, y: string, z: string)
    requires x != [] && PlainWord(x) && IsQuote(q) && q !in y && PlainWord(z)
    ensures Tokens(x + " " + QuotedWith(q, y) + " " + z) == [x, y, z]
  {
    var tail := QuotedWith(q, y) + (Spaces(1) + z);
    assert x + " " + QuotedWith(q, y) + " " + z == x + (Spaces(1) + tail);
    calc {
      Tokens(x + (Spaces(1) + tail));
    == { ScanPlain(x, Spaces(1) + tail, [], []); }
      Scan(Spaces(1) + tail, Unquoted, [] + x, []);
    == { assert [] + x == x; assert tail[0] == q; SpaceRun(1, tail, x, []); }
      Scan(tail, Unquoted, [], [] + [x]);
    == { ScanQuotedWord(q, y, Spaces(1) + z, [], [] + [x]); }
      Scan(Spaces(1) + z, Unquoted, [] + y, [] + [x]);
    == { assert [] + y == y; assert z == [] || z[0] != ' ' by { if z != [] { assert z[0] in z; } }
         SpaceRun(1, z, y, [] + [x]); }
      Scan(z, Unquoted, [], [] + [x] + [y]);
    == { ScanPlain(z, [], [], [] + [x] + [y]); assert z + [] == z; }
      Scan([], Unquoted, [] + z, [] + [x] + [y]);
    == { assert [] + z == z; }
      [x, y, z];
    }
  }

  /** `a "b c" d` has three arguments: the quoted phrase is one argument. */
  lemma TokensExample()
    ensures Tokens("a \"b c\" d") == ["a", "b c", "d"]
  {
    assert "a \"b c\" d" == "a" + " " + QuotedWith('"', "b c") + " " + "d";
    ThreeArgs("a", '"', "b c", "d");
  }

  /** Inside single quotes a double quote is an ordinary character. */
  lemma SingleQuotedExample()
    ensures Tokens("echo 'say \"hi' x") == ["echo", "say \"hi", "x"]
  {
    assert "echo 'say \"hi' x" == "echo" + " " + QuotedWith('\'', "say \"hi") + " " + "x";
    ThreeArgs("echo", '\'', "say \"hi", "x");
  }

  // ---------------------------------------------------------------------
  // The in-place implementation

  /** `i--` on a size_t: decrementing zero wraps to SIZE_MAX. */
  function SizeDec(i: nat): nat
  {
    if i == 0 then SIZE_MAX else i - 1
  }

  /** `i++` on a size_t: incrementing SIZE_MAX wraps to zero. */
  function SizeInc(i: nat): nat
  {
    if i == SIZE_MAX then 0 else i + 1
  }

  /** The loop's `i--; i++` on a deleted quote leaves `i` where it was,
      also at 0, thanks to the wrap-around. */
  lemma SizeDecInc(i: nat)
    requires i < SIZE_MAX
    ensures SizeInc(SizeDec(i)) == i
  {
  }

  /** The finished arguments laid out as consecutive NUL-terminated strings. */
  function JoinNul(a: seq<string>): string
  {
    if a == [] then [] else JoinNul(a[..|a| - 1]) + a[|a| - 1] + ['\0']
  }

  /** Where each of those strings starts, plus where the next one will. */
  function Offsets(a: seq<string>): (r: seq<nat>)
    ensures |r| == |a| + 1 && r[|a|] == |JoinNul(a)|
  {
    if a == [] then [0] else Offsets(a[..|a| - 1]) + [|JoinNul(a)|]
  }

  lemma {:induction false} JoinNulAt(a: seq<string>, k: nat)
    requires k < |a|
    ensures Offsets(a)[k] + |a[k]| < |JoinNul(a)|
    ensures JoinNul(a)[Offsets(a)[k]..Offsets(a)[k] + |a[k]|] == a[k]
    ensures JoinNul(a)[Offsets(a)[k] + |a[k]|] == '\0'
  {
    var p := a[..|a| - 1];
    var x := a[|a| - 1];
    assert JoinNul(a) == JoinNul(p) + x + ['\0'];
    if k < |p| {
      JoinNulAt(p, k);
      assert Offsets(a)[k] == Offsets(p)[k];
      assert a[k] == p[k];
      var o := Offsets(p)[k];
      assert JoinNul(a)[o..o + |p[k]|] == JoinNul(p)[o..o + |p[k]|];
    } else {
      assert Offsets(a)[k] == Offsets(p)[|p|] == |JoinNul(p)|;
    }
  }

  predicate AllNoNul(a: seq<string>)
  {
    forall k :: 0 <= k < |a| ==> NoNul(a[k])
  }

  /** strlen at offset `o` of `buf` is `|w|` when `w` sits there, free of
      NUL, and is followed by a NUL or by the end of the buffer. */
  lemma StrlenAt(buf: string, o: nat, w: string)
    requires o + |w| <= |buf| && buf[o..o + |w|] == w && NoNul(w)
    requires o + |w| == |buf| || buf[o + |w|] == '\0'
    ensures RunLen(buf[o..], {'\0'}) == |w|
  {
    var t := buf[o..];
    forall k | 0 <= k < |w|
      ensures t[k] !in {'\0'}
    {
      assert t[k] == buf[o..o + |w|][k] == w[k];
    }
    RunLenAt(t, |w|, {'\0'});
  }

  /** Reading the C string at `Offsets(acc)[k]` of the final buffer yields
      argument `k`. */
  lemma CStringAt(acc: seq<string>, cur: string, k: nat)
    requires AllNoNul(acc) && NoNul(cur) && k <= |acc|
    ensures Offsets(acc)[k] <= |JoinNul(acc) + cur|
    ensures CStr(JoinNul(acc) + cur, Offsets(acc)[k]) == (acc + [cur])[k]
  {
    if k < |acc| {
      assert (acc + [cur])[k] == acc[k];
      CStringBefore(acc, cur, k);
    } else {
      assert (acc + [cur])[k] == cur;
      CStringLast(acc, cur);
    }
  }

  lemma CStringBefore(acc: seq<string>, cur: string, k: nat)
    requires k < |acc| && NoNul(acc[k])
    ensures Offsets(acc)[k] <= |JoinNul(acc) + cur|
    ensures CStr(JoinNul(acc) + cur, Offsets(acc)[k]) == acc[k]
  {
    JoinNulAt(acc, k);
    CStrWithin(JoinNul(acc), cur, Offsets(acc)[k], acc[k]);
  }

  lemma CStringLast(acc: seq<string>, cur: string)
    requires NoNul(cur)
    ensures CStr(JoinNul(acc) + cur, Offsets(acc)[|acc|]) == cur
  {
    CStrAfter(JoinNul(acc), cur);
  }

  /** A NUL-terminated string inside `j` reads the same once `c` is
      appended. */
  lemma CStrWithin(j: string, c: string, o: nat, w: string)
    requires o + |w| < |j| && j[o..o + |w|] == w && j[o + |w|] == '\0' && NoNul(w)
    ensures o <= |j + c| && CStr(j + c, o) == w
  {
    var buf := j + c;
    assert buf[o..o + |w|] == w;
    assert buf[o + |w|] == '\0';
    StrlenAt(buf, o, w);
  }

  /** The string appended last runs to the end of the buffer. */
  lemma CStrAfter(j: string, c: string)
    requires NoNul(c)
    ensures CStr(j + c, |j|) == c
  {
    var buf := j + c;
    assert buf[|j|..|j| + |c|] == c;
    StrlenAt(buf, |j|, c);
  }

  function QuoteStateOf(inQuote: bool, quoteChar: char): QuoteState
  {
    if inQuote then Quoted(quoteChar) else Unquoted
  }

  /** memmove(&buf[i], &buf[i + 1], len - i): the character at `i` is
      deleted and the rest, terminator included, moves down by one. */
  function DeleteAt(buf: string, i: nat): (r: string)
    requires i < |buf|
    ensures |r| == |buf| - 1 && r[..i] == buf[..i] && r[i..] == buf[i + 1..]
  {
    buf[..i] + buf[i + 1..]
  }

  /** The state of the scanning loop before position `i`: the buffer up to
      `i` holds the finished arguments NUL-terminated followed by the
      current one, argv points at their starts, and scanning the rest in
      the current quote state completes the reference token list. */
  ghost predicate ScanInv(trimmed: string, buffer: string, i: nat, argv: seq<nat>,
                          acc: seq<string>, cur: string, st: QuoteState)
  {
    i <= |buffer| &&
    argv == Offsets(acc) &&
    buffer[..i] == JoinNul(acc) + cur &&
    NoNul(buffer[i..]) && NoNul(cur) && AllNoNul(acc) &&
    Scan(buffer[i..], st, cur, acc) == Tokens(trimmed)
  }

  /** A quote character is deleted and the quote state changes. */
  lemma QuoteStep(trimmed: string, buffer: string, i: nat, argv: seq<nat>,
                  acc: seq<string>, cur: string, st: QuoteState, st': QuoteState)
    requires ScanInv(trimmed, buffer, i, argv, acc, cur, st) && i < |buffer|
    requires (st == Unquoted && IsQuote(buffer[i]) && st' == Quoted(buffer[i])) ||
             (st.Quoted? && buffer[i] == st.closer && st' == Unquoted)
    ensures ScanInv(trimmed, DeleteAt(buffer, i), i, argv, acc, cur, st')
  {
    assert buffer[i..][0] == buffer[i] && buffer[i..][1..] == buffer[i + 1..];
  }

  /** Any other character stays in the current argument. */
  lemma KeepStep(trimmed: string, buffer: string, i: nat, argv: seq<nat>,
                 acc: seq<string>, cur: string, st: QuoteState)
    requires ScanInv(trimmed, buffer, i, argv, acc, cur, st) && i < |buffer|
    requires !(st == Unquoted && IsQuote(buffer[i]))
    requires !(st.Quoted? && buffer[i] == st.closer)
    requires !(st == Unquoted && buffer[i] == ' ')
    ensures ScanInv(trimmed, buffer, i + 1, argv, acc, cur + [buffer[i]], st)
  {
    assert buffer[i..][0] == buffer[i] && buffer[i..][1..] == buffer[i + 1..];
    assert buffer[..i + 1] == buffer[..i] + [buffer[i]];
    assert buffer[i] == buffer[i..][0];
  }

  /** An unquoted space: the NUL written at `i` ends the current argument,
      the spaces after it are gone, and the next argument starts at
      `i + 1`. */
  lemma SpaceStep(trimmed: string, buffer: string, i: nat, argv: seq<nat>,
                  acc: seq<string>, cur: string, buffer': string)
    requires ScanInv(trimmed, buffer, i, argv, acc, cur, Unquoted) && i < |buffer|
    requires buffer[i] == ' '
    requires i < |buffer'| && buffer'[..i] == buffer[..i] && buffer'[i] == '\0'
    requires buffer'[i + 1..] == DropSpaces(buffer[i + 1..])
    ensures ScanInv(trimmed, buffer', i + 1, argv + [i + 1], acc + [cur], [], Unquoted)
  {
    ScanAtSpace(buffer[i..], cur, acc);
    assert buffer[i..][1..] == buffer[i + 1..];
    SpacePrefix(buffer, i, acc, cur, buffer');
    NoNulAfter(buffer, i, buffer');
    AllNoNulSnoc(acc, cur);
  }

  /** The buffer up to the new NUL holds the finished arguments. */
  lemma SpacePrefix(buffer: string, i: nat, acc: seq<string>, cur: string, buffer': string)
    requires i <= |buffer| && buffer[..i] == JoinNul(acc) + cur
    requires i < |buffer'| && buffer'[..i] == buffer[..i] && buffer'[i] == '\0'
    ensures buffer'[..i + 1] == JoinNul(acc + [cur]) + []
    ensures Offsets(acc + [cur]) == Offsets(acc) + [i + 1]
  {
    JoinNulSnoc(acc, cur);
    assert buffer'[..i + 1] == buffer'[..i] + ['\0'];
  }

  lemma AllNoNulSnoc(acc: seq<string>, cur: string)
    requires AllNoNul(acc) && NoNul(cur)
    ensures AllNoNul(acc + [cur])
  {
    var a := acc + [cur];
    forall k | 0 <= k < |a| ensures NoNul(a[k]) { if k < |acc| { assert a[k] == acc[k]; } }
  }

  /** An unquoted space ends the current argument; the spaces after it are
      squeezed out. */
  lemma ScanAtSpace(rest: string, cur: string, acc: seq<string>)
    requires rest != [] && rest[0] == ' '
    ensures Scan(rest, Unquoted, cur, acc) == Scan(DropSpaces(rest[1..]), Unquoted, [], acc + [cur])
  {
  }

  lemma JoinNulSnoc(acc: seq<string>, cur: string)
    ensures JoinNul(acc + [cur]) == JoinNul(acc) + cur + ['\0']
    ensures JoinNul(acc + [cur]) + [] == JoinNul(acc + [cur])
    ensures Offsets(acc + [cur]) == Offsets(acc) + [|JoinNul(acc + [cur])|]
  {
    var acc' := acc + [cur];
    assert acc'[..|acc'| - 1] == acc;
  }

  /** After the squeeze the rest of the buffer is still free of NUL. */
  lemma NoNulAfter(buffer: string, i: nat, buffer': string)
    requires i < |buffer| && NoNul(buffer[i..])
    requires i < |buffer'| && buffer'[i + 1..] == DropSpaces(buffer[i + 1..])
    ensures NoNul(buffer'[i + 1..])
  {
    var t := buffer[i + 1..];
    assert forall k :: 0 <= k < |t| ==> t[k] == buffer[i..][k + 1];
    DropSpacesSuffix(t);
  }

  /** The NUL-terminated string that starts at offset `o`, as strlen and
      every reader of argv see it. */
  function CStr(buf: string, o: nat): (r: string)
    requires o <= |buf|
    ensures NoNul(r)
  {
    buf[o..o + RunLen(buf[o..], {'\0'})]
  }

  /** An unquoted space when every argv slot is taken: the reference
      token list is longer than argv allows. */
  lemma TooManyStep(trimmed: string, buffer: string, i: nat, argv: seq<nat>,
                    acc: seq<string>, cur: string)
    requires ScanInv(trimmed, buffer, i, argv, acc, cur, Unquoted) && i < |buffer|
    requires buffer[i] == ' '
    ensures |Tokens(trimmed)| >= |acc| + 2
  {
    assert buffer[i..][0] == ' ' && buffer[i..][1..] == buffer[i + 1..];
    ScanGrows(DropSpaces(buffer[i + 1..]), Unquoted, [], acc + [cur]);
  }

  /** At the end of the buffer the layout holds every token of the
      reference list, each at its argv offset. */
  lemma ScanDone(trimmed: string, buffer: string, argv: seq<nat>,
                 acc: seq<string>, cur: string, st: QuoteState)
    requires ScanInv(trimmed, buffer, |buffer|, argv, acc, cur, st)
    ensures |argv| == |Tokens(trimmed)|
    ensures forall k :: 0 <= k < |argv| ==> argv[k] <= |buffer| && CStr(buffer, argv[k]) == Tokens(trimmed)[k]
  {
    assert buffer[|buffer|..] == [];
    assert buffer == JoinNul(acc) + cur by { assert buffer[..|buffer|] == buffer; }
    assert acc + [cur] == Tokens(trimmed);
    forall k | 0 <= k < |argv|
      ensures argv[k] <= |buffer| && CStr(buffer, argv[k]) == Tokens(trimmed)[k]
    {
      CStringAt(acc, cur, k);
    }
  }

  /** The inner loop after an unquoted space was replaced by NUL at `i`:
      the spaces that follow are deleted one memmove at a time. */
  method SqueezeSpaces(buf: string, i: nat) returns (r: string, len: nat)
    requires i < |buf|
    ensures len == |r| <= |buf|
    ensures i < |r| && r[..i + 1] == buf[..i + 1]
    ensures r[i + 1..] == DropSpaces(buf[i + 1..])
  {
    r := buf;
    len := |r|;
    while i + 1 < len && r[i + 1] == ' '
      invariant len == |r| <= |buf| && i < len
      invariant r[..i + 1] == buf[..i + 1]
      invariant DropSpaces(r[i + 1..]) == DropSpaces(buf[i + 1..])
      decreases len
    {
      assert r[i + 1..][1..] == r[i + 2..];
      r := DeleteAt(r, i + 1);
      len := len - 1;
    }
  }

  /** The space branch of the parse_cmd_line loop: the space becomes the
      NUL that ends the current argument and the spaces after it are
      squeezed out. */
  method EndArgument(ghost trimmed: string, buffer: string, i: nat, ghost argv: seq<nat>,
                     ghost acc: seq<string>, ghost cur: string)
    returns (buffer': string, len': nat)
    requires ScanInv(trimmed, buffer, i, argv, acc, cur, Unquoted) && i < |buffer|
    requires buffer[i] == ' '
    ensures len' == |buffer'| <= |buffer|
    ensures ScanInv(trimmed, buffer', i + 1, argv + [i + 1], acc + [cur], [], Unquoted)
  {
    ghost var d := DropSpaces(buffer[i + 1..]);
    buffer' := buffer[i := '\0'];
    buffer', len' := SqueezeSpaces(buffer', i);
    assert buffer'[..i] == buffer[..i] by { assert buffer'[..i] == buffer'[..i + 1][..i]; }
    assert buffer'[i + 1..] == d by { assert buffer[i + 1..] == buffer[i := '\0'][i + 1..]; }
    SpaceStep(trimmed, buffer, i, argv, acc, cur, buffer');
  }

  /** The scanning loop of parse_cmd_line on the heap copy of the trimmed
      line (the local `buffer`, which each memmove shortens). `argv` holds
      the offsets at which the arguments start; the ghost `acc` and `cur`
      are the tokens the reference scanner has produced so far. It either
      runs out of argv slots or leaves argument `k` as the C string at
      `argv[k]`. */
  method ScanInPlace(trimmed: string) returns (tooMany: bool, buffer: string, argv: seq<nat>)
    requires NoNul(trimmed) && |trimmed| < SIZE_MAX
    ensures tooMany <==> |Tokens(trimmed)| > CMD_ARGV_MAX - 1
    ensures !tooMany ==> |argv| == |Tokens(trimmed)|
    ensures !tooMany ==> forall k :: 0 <= k < |argv| ==> argv[k] <= |buffer| && CStr(buffer, argv[k]) == Tokens(trimmed)[k]
  {
    buffer := trimmed;
    var argc := 0;
    var inQuote := false;
    var quoteChar := '\0';
    var len := |buffer|;
    argv := [0];
    argc := argc + 1;
    ghost var acc: seq<string> := [];
    ghost var cur: string := [];
    var i: nat := 0;
    assert NoNul(buffer[i..]) by { assert buffer[i..] == trimmed; }
    while i < len
      invariant len == |buffer| <= |trimmed| && i <= len
      invariant argc == |argv| == |acc| + 1 <= CMD_ARGV_MAX - 1
      invariant ScanInv(trimmed, buffer, i, argv, acc, cur, QuoteStateOf(inQuote, quoteChar))
      decreases len - i
    {
      var c := buffer[i];
      if !inQuote && (c == '"' || c == '\'') {
        QuoteStep(trimmed, buffer, i, argv, acc, cur, Unquoted, Quoted(c));
        inQuote := true;
        quoteChar := c;
        buffer := DeleteAt(buffer, i);
        len := len - 1;
        SizeDecInc(i);
        i := SizeDec(i);
      } else if inQuote && c == quoteChar {
        QuoteStep(trimmed, buffer, i, argv, acc, cur, Quoted(quoteChar), Unquoted);
        inQuote := false;
        quoteChar := '\0';
        buffer := DeleteAt(buffer, i);
        len := len - 1;
        SizeDecInc(i);
        i := SizeDec(i);
      } else if !inQuote && c == ' ' {
        ghost var before := buffer;
        buffer, len := EndArgument(trimmed, buffer, i, argv, acc, cur);
        if argc < CMD_ARGV_MAX - 1 {
          argv := argv + [i + 1];
          argc := argc + 1;
          acc := acc + [cur];
          cur := [];
        } else {
          TooManyStep(trimmed, before, i, argv, acc, cur);
          return true, buffer, argv;
        }
      } else {
        KeepStep(trimmed, buffer, i, argv, acc, cur, QuoteStateOf(inQuote, quoteChar));
        cur := cur + [c];
      }
      i := SizeInc(i);
    }
    ScanDone(trimmed, buffer, argv, acc, cur, QuoteStateOf(inQuote, quoteChar));
    tooMany := false;
  }

  /** The final loop of parse_cmd_line: strlen of every argument against
      ARG_MAX. `strs` are the arguments as the caller reads them. */
  method ArgStrings(buffer: string, argv: seq<nat>) returns (tooBig: bool, strs: seq<string>)
    requires forall k :: 0 <= k < |argv| ==> argv[k] <= |buffer|
    ensures tooBig <==> exists k :: 0 <= k < |argv| && |CStr(buffer, argv[k])| >= ARG_MAX
    ensures !tooBig ==> |strs| == |argv| && forall k :: 0 <= k < |argv| ==> strs[k] == CStr(buffer, argv[k])
  {
    strs := [];
    var k := 0;
    while k < |argv|
      invariant k <= |argv| && |strs| == k
      invariant forall j :: 0 <= j < k ==> strs[j] == CStr(buffer, argv[j]) && |strs[j]| < ARG_MAX
    {
      var arg := CStr(buffer, argv[k]);
      if |arg| >= ARG_MAX {
        return true, strs;
      }
      strs := strs + [arg];
      k := k + 1;
    }
    tooBig := false;
  }

  /** parse_cmd_line: trim, reject an empty command, split the copy in
      place, then refuse any argument of ARG_MAX characters or more. On
      success the arguments are read back through argv, as the C caller
      does. */
  method ParseCmdLine(line: string) returns (r: ParseResult)
    requires NoNul(line) && |line| < SIZE_MAX
    ensures r == ParseOutcome(line)
    ensures r.Parsed? ==> 1 <= |r.argv| <= CMD_ARGV_MAX - 1
    ensures r.Parsed? ==> forall k :: 0 <= k < |r.argv| ==> |r.argv[k]| < ARG_MAX
  {
    var lo, hi := TrimWhitespace(line);
    var trimmed := line[lo..hi];
    if |trimmed| == 0 {
      return WarnNoCmds;
    }
    var tooMany, buffer, argv := ScanInPlace(trimmed);
    if tooMany {
      return ErrTooManyCommands;
    }
    TokensNonEmpty(trimmed);
    var tooBig, strs := ArgStrings(buffer, argv);
    if tooBig {
      return ErrCmdOrArgsTooBig;
    }
    return Parsed(strs);
  }
}
