/** split_commands of 6-RShell/starter/dshlib.c: cut a trimmed command line
    into pipeline stages at every `|` outside quotes, trimming each stage. */
module Splitter {
  import opened Text

  datatype Option<T> = None | Some(value: T)

  /** The quote state after reading quote character `c`: any quote opens
      one when none is open, only the same character closes it, and the
      other quote character inside a quote changes nothing. Unlike the
      tokenizer, the splitter keeps every quote character. */
  function AfterQuote(st: QuoteState, c: char): QuoteState
  {
    if st == Unquoted then Quoted(c)
    else if c == st.closer then Unquoted
    else st
  }

  /** The reference splitter over the remainder `rest`; `cur` is the stage
      being read and `acc` the stages before it, all untrimmed. */
  function SegScan(rest: string, st: QuoteState, cur: string, acc: seq<string>): seq<string>
    decreases |rest|
  {
    if rest == [] then acc + [cur]
    else
      var c := rest[0];
      if IsQuote(c) then SegScan(rest[1..], AfterQuote(st, c), cur + [c], acc)
      else if c == '|' && st == Unquoted then SegScan(rest[1..], Unquoted, [], acc + [cur])
      else SegScan(rest[1..], st, cur + [c], acc)
  }

  /** The untrimmed stages of `s`. */
  function RawSegments(s: string): seq<string>
  {
    SegScan(s, Unquoted, [], [])
  }

  function TrimAll(segs: seq<string>): (r: seq<string>)
    ensures |r| == |segs| && forall k :: 0 <= k < |segs| ==> r[k] == Trimmed(segs[k])
  {
    if segs == [] then [] else [Trimmed(segs[0])] + TrimAll(segs[1..])
  }

  /** What split_commands returns: None for its -1. It fails when there are
      `maxParts` or more `|` separators, when a stage before the last one is
      blank, and when the only stage is blank; a blank last stage after at
      least one `|` is dropped instead. */
  function SplitOutcome(s: string, maxParts: int): Option<seq<string>>
  {
    StagesOutcome(RawSegments(s), maxParts)
  }

  /** Whether a stage before the last one trims to nothing. */
  predicate BlankBeforeLast(segs: seq<string>)
  {
    exists j :: 0 <= j < |segs| - 1 && Trimmed(segs[j]) == []
  }

  function StagesOutcome(segs: seq<string>, maxParts: int): Option<seq<string>>
  {
    var k := |segs| - 1;
    if k < 0 || k >= maxParts then None
    else if BlankBeforeLast(segs) then None
    else if Trimmed(segs[k]) == [] then (if k > 0 then Some(TrimAll(segs[..k])) else None)
    else Some(TrimAll(segs))
  }

  // ---------------------------------------------------------------------
  // Properties of the reference splitter

  lemma {:induction false} SegScanGrows(rest: string, st: QuoteState, cur: string, acc: seq<string>)
    ensures |SegScan(rest, st, cur, acc)| >= |acc| + 1
    ensures SegScan(rest, st, cur, acc)[..|acc|] == acc
    decreases |rest|
  {
    if rest != [] {
      var c := rest[0];
      if IsQuote(c) {
        SegScanGrows(rest[1..], AfterQuote(st, c), cur + [c], acc);
      } else if c == '|' && st == Unquoted {
        SegScanGrows(rest[1..], Unquoted, [], acc + [cur]);
        assert (acc + [cur])[..|acc|] == acc;
      } else {
        SegScanGrows(rest[1..], st, cur + [c], acc);
      }
    }
  }

  predicate NoSplitChar(w: string)
  {
    forall k :: 0 <= k < |w| ==> w[k] != '|' && !IsQuote(w[k])
  }

  /** Characters that are neither quotes nor `|` just join the stage. */
  lemma {:induction false} SegScanPlain(w: string, r: string, st: QuoteState, cur: string, acc: seq<string>)
    requires NoSplitChar(w)
    ensures SegScan(w + r, st, cur, acc) == SegScan(r, st, cur + w, acc)
    decreases |w|
  {
    if w != [] {
      assert (w + r)[0] == w[0] && (w + r)[1..] == w[1..] + r;
      SegScanPlain(w[1..], r, st, cur + [w[0]], acc);
      assert cur + [w[0]] + w[1..] == cur + w;
    } else {
      assert w + r == r && cur + w == cur;
    }
  }

  function JoinPipes(segs: seq<string>): string
    requires |segs| >= 1
  {
    if |segs| == 1 then segs[0] else JoinPipes(segs[..|segs| - 1]) + "|" + segs[|segs| - 1]
  }

  lemma JoinPipesExtend(acc: seq<string>, cur: string, c: char)
    ensures JoinPipes(acc + [cur + [c]]) == JoinPipes(acc + [cur]) + [c]
  {
    var a := acc + [cur];
    var b := acc + [cur + [c]];
    assert a[..|a| - 1] == acc && b[..|b| - 1] == acc;
  }

  lemma JoinPipesNew(a: seq<string>)
    requires |a| >= 1
    ensures JoinPipes(a + [[]]) == JoinPipes(a) + "|"
  {
    var b := a + [[]];
    assert b[..|b| - 1] == a;
  }

  /** Reading `rest` extends what has been read to the whole input. */
  lemma {:induction false} SegScanJoin(rest: string, st: QuoteState, cur: string, acc: seq<string>)
    ensures |SegScan(rest, st, cur, acc)| >= 1
    ensures JoinPipes(SegScan(rest, st, cur, acc)) == JoinPipes(acc + [cur]) + rest
    decreases |rest|
  {
    SegScanGrows(rest, st, cur, acc);
    if rest == [] {
      assert JoinPipes(acc + [cur]) + rest == JoinPipes(acc + [cur]);
    } else {
      var c := rest[0];
      assert rest == [c] + rest[1..];
      if IsQuote(c) || !(c == '|' && st == Unquoted) {
        var st' := if IsQuote(c) then AfterQuote(st, c) else st;
        calc {
          JoinPipes(SegScan(rest, st, cur, acc));
          JoinPipes(SegScan(rest[1..], st', cur + [c], acc));
        == { SegScanJoin(rest[1..], st', cur + [c], acc); }
          JoinPipes(acc + [cur + [c]]) + rest[1..];
        == { JoinPipesExtend(acc, cur, c); }
          JoinPipes(acc + [cur]) + [c] + rest[1..];
          JoinPipes(acc + [cur]) + rest;
        }
      } else {
        var blank: string := [];
        calc {
          JoinPipes(SegScan(rest, st, cur, acc));
          JoinPipes(SegScan(rest[1..], Unquoted, blank, acc + [cur]));
        == { SegScanJoin(rest[1..], Unquoted, blank, acc + [cur]); }
          JoinPipes(acc + [cur] + [blank]) + rest[1..];
        == { JoinPipesNew(acc + [cur]); }
          JoinPipes(acc + [cur]) + "|" + rest[1..];
          JoinPipes(acc + [cur]) + rest;
        }
      }
    }
  }

  /** Joining the untrimmed stages with `|` gives the line back: the split
      loses nothing but the separators. */
  lemma SegmentsJoin(s: string)
    ensures |RawSegments(s)| >= 1 && JoinPipes(RawSegments(s)) == s
  {
    SegScanJoin(s, Unquoted, [], []);
    var none: seq<string> := [];
    var blank: string := [];
    assert none + [blank] == [blank];
    assert JoinPipes([blank]) + s == s;
  }

  lemma {:induction false} JoinPipesCons(ws: seq<string>)
    requires |ws| >= 2
    ensures JoinPipes(ws) == ws[0] + "|" + JoinPipes(ws[1..])
    decreases |ws|
  {
    var init := ws[..|ws| - 1];
    var last := ws[|ws| - 1];
    var tl := ws[1..];
    assert tl[..|tl| - 1] == init[1..] && tl[|tl| - 1] == last;
    if |ws| == 2 {
      assert JoinPipes(init) == ws[0];
      assert JoinPipes(tl) == last;
    } else {
      JoinPipesCons(init);
      assert init[0] == ws[0];
    }
  }

  /** Stages free of quotes and `|` joined with `|` are split back apart. */
  lemma {:induction false} SegScanJoinPlain(ws: seq<string>, cur: string, acc: seq<string>)
    requires |ws| >= 1 && forall k :: 0 <= k < |ws| ==> NoSplitChar(ws[k])
    ensures SegScan(JoinPipes(ws), Unquoted, cur, acc) == acc + [cur + ws[0]] + ws[1..]
    decreases |ws|
  {
    if |ws| == 1 {
      SegScanPlain(ws[0], [], Unquoted, cur, acc);
      assert ws[0] + [] == ws[0];
    } else {
      var tl := ws[1..];
      var rest := JoinPipes(tl);
      var bar := "|" + rest;
      assert bar[0] == '|' && bar[1..] == rest;
      calc {
        SegScan(JoinPipes(ws), Unquoted, cur, acc);
      == { JoinPipesCons(ws); assert JoinPipes(ws) == ws[0] + bar; }
        SegScan(ws[0] + bar, Unquoted, cur, acc);
      == { SegScanPlain(ws[0], bar, Unquoted, cur, acc); }
        SegScan(bar, Unquoted, cur + ws[0], acc);
        SegScan(rest, Unquoted, [], acc + [cur + ws[0]]);
      == { SegScanJoinPlain(tl, [], acc + [cur + ws[0]]); }
        acc + [cur + ws[0]] + [[] + tl[0]] + tl[1..];
      == { assert [] + tl[0] == tl[0]; assert tl == [tl[0]] + tl[1..]; }
        acc + [cur + ws[0]] + ws[1..];
      }
    }
  }

  /** The converse of SegmentsJoin: stages free of quotes and `|`, joined
      with `|`, are exactly the raw segments of the joined line. */
  lemma RawSegmentsOfJoin(ws: seq<string>)
    requires |ws| >= 1 && forall k :: 0 <= k < |ws| ==> NoSplitChar(ws[k])
    ensures RawSegments(JoinPipes(ws)) == ws
  {
    SegScanJoinPlain(ws, [], []);
    assert [] + ws[0] == ws[0];
  }

  /** `a | b | c`: non-blank stages free of quotes and `|`, at most
      `maxParts` of them, come out of split_commands trimmed and in order. */
  lemma StagesOfJoin(ws: seq<string>, maxParts: int)
    requires 1 <= |ws| <= maxParts && forall k :: 0 <= k < |ws| ==> NoSplitChar(ws[k]) && Trimmed(ws[k]) != []
    ensures SplitOutcome(JoinPipes(ws), maxParts) == Some(TrimAll(ws))
  {
    RawSegmentsOfJoin(ws);
  }

  lemma {:induction false} JoinPipesPieces(segs: seq<string>)
    requires |segs| >= 1
    ensures forall j :: 0 <= j < |segs| ==> |segs[j]| <= |JoinPipes(segs)|
    ensures NoNul(JoinPipes(segs)) ==> forall j :: 0 <= j < |segs| ==> NoNul(segs[j])
  {
    if |segs| > 1 {
      var init := segs[..|segs| - 1];
      var last := segs[|segs| - 1];
      JoinPipesPieces(init);
      var whole := JoinPipes(segs);
      assert whole == JoinPipes(init) + "|" + last;
      forall j | 0 <= j < |segs|
        ensures |segs[j]| <= |whole|
        ensures NoNul(whole) ==> NoNul(segs[j])
      {
        if j < |segs| - 1 {
          assert segs[j] == init[j];
          if NoNul(whole) {
            var w := JoinPipes(init);
            assert forall k :: 0 <= k < |w| ==> w[k] == whole[k];
          }
        } else {
          if NoNul(whole) {
            var off := |JoinPipes(init)| + 1;
            assert forall k :: 0 <= k < |last| ==> last[k] == whole[off + k];
          }
        }
      }
    }
  }

  /** The stages of a successful split are C strings no longer than the
      line they came from. */
  lemma SplitPartsFrom(s: string, maxParts: int)
    requires NoNul(s) && SplitOutcome(s, maxParts).Some?
    ensures forall j :: 0 <= j < |SplitOutcome(s, maxParts).value| ==>
              NoNul(SplitOutcome(s, maxParts).value[j]) && |SplitOutcome(s, maxParts).value[j]| <= |s|
  {
    var segs := RawSegments(s);
    var parts := SplitOutcome(s, maxParts).value;
    SegmentsJoin(s);
    JoinPipesPieces(segs);
    PartsAreTrimmedSegments(segs, maxParts);
    forall j | 0 <= j < |parts|
      ensures NoNul(parts[j]) && |parts[j]| <= |s|
    {
      TrimmedNoNul(segs[j]);
    }
  }

  lemma PartsAreTrimmedSegments(segs: seq<string>, maxParts: int)
    requires StagesOutcome(segs, maxParts).Some?
    ensures var parts := StagesOutcome(segs, maxParts).value;
            |parts| <= |segs| && forall j :: 0 <= j < |parts| ==> parts[j] == Trimmed(segs[j])
  {
  }

  lemma TrimmedNoNul(seg: string)
    ensures |Trimmed(seg)| <= |seg| && (NoNul(seg) ==> NoNul(Trimmed(seg)))
  {
    TrimmedIsSlice(seg);
    var lo := LeadingSpaces(seg);
    var t := Trimmed(seg);
    assert forall k :: 0 <= k < |t| ==> t[k] == seg[lo + k];
  }

  /** The quote state after reading character `c`. */
  function Step(st: QuoteState, c: char): QuoteState
  {
    if IsQuote(c) then AfterQuote(st, c) else st
  }

  /** The quote state after reading all of `s`, starting in state `st`. */
  function StateAfter(s: string, st: QuoteState): QuoteState
    decreases |s|
  {
    if s == [] then st else StateAfter(s[1..], Step(st, s[0]))
  }

  /** Whether split_commands is inside a quote when it reaches `s[k]`. */
  predicate InQuoteAt(s: string, k: nat)
    requires k <= |s|
  {
    StateAfter(s[..k], Unquoted).Quoted?
  }

  lemma StateAfterCons(rest: string, st: QuoteState, k: nat)
    requires 1 <= k <= |rest|
    ensures StateAfter(rest[..k], st) == StateAfter(rest[1..][..k - 1], Step(st, rest[0]))
  {
    var p := rest[..k];
    assert p[0] == rest[0] && p[1..] == rest[1..][..k - 1];
  }

  /** Without a `|` read outside quotes the rest joins the current stage. */
  lemma {:induction false} SegScanNoPipe(rest: string, st: QuoteState, cur: string, acc: seq<string>)
    requires forall k :: 0 <= k < |rest| && rest[k] == '|' ==> StateAfter(rest[..k], st) != Unquoted
    ensures SegScan(rest, st, cur, acc) == acc + [cur + rest]
    decreases |rest|
  {
    if rest == [] {
      assert cur + rest == cur;
    } else {
      var c := rest[0];
      var st' := Step(st, c);
      if c == '|' {
        assert rest[..0] == [];
      }
      forall k | 0 <= k < |rest[1..]| && rest[1..][k] == '|'
        ensures StateAfter(rest[1..][..k], st') != Unquoted
      {
        StateAfterCons(rest, st, k + 1);
      }
      SegScanNoPipe(rest[1..], st', cur + [c], acc);
      assert cur + [c] + rest[1..] == cur + rest;
    }
  }

  /** A `|` read outside quotes starts a further stage. */
  lemma {:induction false} SegScanPipeSplits(rest: string, st: QuoteState, cur: string, acc: seq<string>, k: nat)
    requires k < |rest| && rest[k] == '|' && StateAfter(rest[..k], st) == Unquoted
    ensures |SegScan(rest, st, cur, acc)| >= |acc| + 2
    decreases k
  {
    var c := rest[0];
    if k == 0 {
      assert rest[..0] == [];
      SegScanGrows(rest[1..], Unquoted, [], acc + [cur]);
    } else {
      StateAfterCons(rest, st, k);
      if c == '|' && st == Unquoted {
        SegScanGrows(rest[1..], Unquoted, [], acc + [cur]);
      } else {
        SegScanPipeSplits(rest[1..], Step(st, c), cur + [c], acc, k - 1);
      }
    }
  }

  /** A line is a single stage exactly when every `|` in it lies inside a
      quote, whichever quote character opened it (an unterminated quote
      extends to the end of the line). */
  lemma NoPipeOneSegment(s: string)
    ensures RawSegments(s) == [s] <==> forall k :: 0 <= k < |s| && s[k] == '|' ==> InQuoteAt(s, k)
  {
    if forall k :: 0 <= k < |s| && s[k] == '|' ==> InQuoteAt(s, k) {
      SegScanNoPipe(s, Unquoted, [], []);
      assert [] + s == s;
    } else {
      var k :| 0 <= k < |s| && s[k] == '|' && !InQuoteAt(s, k);
      SegScanPipeSplits(s, Unquoted, [], [], k);
    }
  }

  /** Inside a quote closed by `q`, a `|` is an ordinary character. */
  lemma {:induction false} SegScanInQuote(w: string, r: string, q: char, cur: string, acc: seq<string>)
    requires q !in w && forall k :: 0 <= k < |w| ==> w[k] != q
    ensures SegScan(w + r, Quoted(q), cur, acc) == SegScan(r, Quoted(q), cur + w, acc)
    decreases |w|
  {
    if w != [] {
      assert (w + r)[0] == w[0] && (w + r)[1..] == w[1..] + r;
      assert AfterQuote(Quoted(q), w[0]) == Quoted(q);
      SegScanInQuote(w[1..], r, q, cur + [w[0]], acc);
      assert cur + [w[0]] + w[1..] == cur + w;
    } else {
      assert w + r == r && cur + w == cur;
    }
  }

  /** `cmd "a|b"` is one stage: the quoted pipe does not split, and the
      quotes stay for the tokenizer. */
  lemma QuotedPipeLiteral(x: string, w: string)
    requires NoSplitChar(x) && '"' !in w
    ensures RawSegments(x + "\"" + w + "\"") == [x + "\"" + w + "\""]
  {
    var s := x + "\"" + w + "\"";
    assert s == x + ("\"" + (w + "\""));
    SegScanPlain(x, "\"" + (w + "\""), Unquoted, [], []);
    var t := "\"" + (w + "\"");
    assert t[0] == '"' && t[1..] == w + "\"";
    assert forall k :: 0 <= k < |w| ==> w[k] != '"' by {
      forall k | 0 <= k < |w| ensures w[k] != '"' { assert w[k] in w; }
    }
    SegScanInQuote(w, "\"", '"', [] + x + "\"", []);
    var u := "\"";
    assert u[0] == '"' && u[1..] == [];
    assert [] + x + "\"" + w + "\"" == s;
  }

  /** Every successful split has between one and `maxParts` stages, each
      non-empty and already trimmed; so the caller's "zero commands" case
      cannot arise. */
  lemma SplitShape(s: string, maxParts: int)
    requires SplitOutcome(s, maxParts).Some?
    ensures 1 <= |SplitOutcome(s, maxParts).value| <= maxParts
    ensures forall j :: 0 <= j < |SplitOutcome(s, maxParts).value| ==>
              SplitOutcome(s, maxParts).value[j] != [] && Trimmed(SplitOutcome(s, maxParts).value[j]) == SplitOutcome(s, maxParts).value[j]
  {
    var parts := SplitOutcome(s, maxParts).value;
    forall j | 0 <= j < |parts|
      ensures parts[j] != [] && Trimmed(parts[j]) == parts[j]
    {
      var segs := RawSegments(s);
      assert parts[j] == Trimmed(segs[j]);
      TrimmedProperties(segs[j]);
    }
  }

  /** A blank stage after the last `|` is dropped: `ls |` runs `ls`. */
  lemma TrailingPipeDropped(x: string, maxParts: int)
    requires NoSplitChar(x) && Trimmed(x) != [] && maxParts >= 2
    ensures SplitOutcome(x + "|", maxParts) == Some([Trimmed(x)])
  {
    var blank: string := [];
    var none: seq<string> := [];
    calc {
      RawSegments(x + "|");
    == { SegScanPlain(x, "|", Unquoted, blank, none); }
      SegScan("|", Unquoted, blank + x, none);
    == { assert "|"[1..] == blank; }
      SegScan(blank, Unquoted, blank, none + [blank + x]);
    == { assert blank + x == x; }
      [x, blank];
    }
    var segs := [x, blank];
    assert !BlankBeforeLast(segs);
    TrimmedEmptyIff(blank);
    assert Trimmed(segs[1]) == [];
    assert segs[..1] == [x];
    assert TrimAll([x]) == [Trimmed(x)];
    assert StagesOutcome(segs, maxParts) == Some([Trimmed(x)]);
  }

  /** Two `|` in a row make a blank middle stage, which is an error. */
  lemma EmptyMiddleStage(x: string, y: string, maxParts: int)
    requires NoSplitChar(x) && NoSplitChar(y)
    ensures SplitOutcome(x + "||" + y, maxParts) == None
  {
    var blank: string := [];
    var none: seq<string> := [];
    assert x + "||" + y == x + ("||" + y);
    calc {
      RawSegments(x + ("||" + y));
    == { SegScanPlain(x, "||" + y, Unquoted, blank, none); }
      SegScan("||" + y, Unquoted, blank + x, none);
    == { assert ("||" + y)[0] == '|' && ("||" + y)[1..] == "|" + y; }
      SegScan("|" + y, Unquoted, blank, none + [blank + x]);
    == { assert ("|" + y)[0] == '|' && ("|" + y)[1..] == y; }
      SegScan(y, Unquoted, blank, none + [blank + x] + [blank]);
    == { SegScanPlain(y, blank, Unquoted, blank, none + [blank + x] + [blank]); assert y + blank == y; }
      SegScan(blank, Unquoted, blank + y, none + [blank + x] + [blank]);
    == { assert blank + x == x && blank + y == y; }
      [x, blank, y];
    }
    TrimmedEmptyIff(blank);
    assert BlankBeforeLast([x, blank, y]) by { assert Trimmed([x, blank, y][1]) == []; }
  }

  // ---------------------------------------------------------------------
  // The implementation

  /** The state before input position `i`: the finished stages read so
      far are `acc`, the current one started right after the last `|` at
      `rawStart`, and its copy will start at `partStart` once the
      whitespace after the `|` is skipped. */
  ghost predicate SplitInv(input: string, i: nat, rawStart: nat, partStart: nat, st: QuoteState,
                           acc: seq<string>)
  {
    rawStart <= partStart <= i <= |input| &&
    AllSpace(input[rawStart..partStart]) &&
    SegScan(input[i..], st, input[rawStart..i], acc) == RawSegments(input)
  }

  lemma SplitStepKeep(input: string, i: nat, rawStart: nat, partStart: nat, st: QuoteState,
                      acc: seq<string>, st': QuoteState)
    requires SplitInv(input, i, rawStart, partStart, st, acc) && i < |input|
    requires IsQuote(input[i]) ==> st' == AfterQuote(st, input[i])
    requires !IsQuote(input[i]) ==> !(input[i] == '|' && st == Unquoted) && st' == st
    ensures SplitInv(input, i + 1, rawStart, partStart, st', acc)
  {
    assert input[i..][0] == input[i] && input[i..][1..] == input[i + 1..];
    assert input[rawStart..i + 1] == input[rawStart..i] + [input[i]];
  }

  lemma SplitStepPipe(input: string, i: nat, rawStart: nat, partStart: nat, acc: seq<string>, next: nat)
    requires SplitInv(input, i, rawStart, partStart, Unquoted, acc) && i < |input| && input[i] == '|'
    requires i + 1 <= next <= |input| && AllSpace(input[i + 1..next])
    ensures SplitInv(input, next, i + 1, next, Unquoted, acc + [input[rawStart..i]])
    ensures Trimmed(input[partStart..i]) == Trimmed(input[rawStart..i])
  {
    assert input[i..][0] == input[i] && input[i..][1..] == input[i + 1..];
    var ws := input[i + 1..next];
    assert NoSplitChar(ws) by {
      forall k | 0 <= k < |ws| ensures ws[k] != '|' && !IsQuote(ws[k]) { assert IsSpace(ws[k]); }
    }
    assert input[i + 1..] == ws + input[next..];
    SegScanPlain(ws, input[next..], Unquoted, [], acc + [input[rawStart..i]]);
    assert [] + ws == input[i + 1..next];
    assert input[rawStart..i] == input[rawStart..partStart] + input[partStart..i];
    TrimmedSkipsLeading(input[rawStart..partStart], input[partStart..i]);
  }

  /** The loop that moves the start of the next stage past whitespace. */
  method SkipSpaces(input: string, from: nat) returns (next: nat)
    requires from <= |input|
    ensures from <= next <= |input| && AllSpace(input[from..next])
    ensures next == |input| || !IsSpace(input[next])
  {
    next := from;
    while next < |input| && IsSpace(input[next])
      invariant from <= next <= |input| && AllSpace(input[from..next])
    {
      assert input[from..next + 1] == input[from..next] + [input[next]];
      next := next + 1;
    }
  }

  /** The stages read so far are all non-blank. */
  predicate NoneBlank(acc: seq<string>)
  {
    forall j :: 0 <= j < |acc| ==> Trimmed(acc[j]) != []
  }

  /** split_commands. `parts` receive the trimmed stages; a malloc or strdup
      that fails is not modelled. */
  method SplitCommands(input: string, maxParts: int) returns (n: int, parts: seq<string>)
    requires NoNul(input)
    ensures n == -1 <==> SplitOutcome(input, maxParts).None?
    ensures n != -1 ==> n == |parts| && parts == SplitOutcome(input, maxParts).value
  {
    var inQuote := false;
    var quoteChar := '\0';
    var partStart: nat := 0;
    var partCount := 0;
    var len := |input|;
    ghost var rawStart: nat := 0;
    ghost var acc: seq<string> := [];
    parts := [];
    var i: nat := 0;
    while i < len
      invariant len == |input|
      invariant SplitInv(input, i, rawStart, partStart, if inQuote then Quoted(quoteChar) else Unquoted, acc)
      invariant partCount == |parts| == |acc| && (acc == [] || |acc| <= maxParts)
      invariant parts == TrimAll(acc) && NoneBlank(acc)
    {
      ghost var st := if inQuote then Quoted(quoteChar) else Unquoted;
      if input[i] == '"' || input[i] == '\'' {
        if !inQuote {
          inQuote := true;
          quoteChar := input[i];
        } else if input[i] == quoteChar {
          inQuote := false;
          quoteChar := '\0';
        }
        SplitStepKeep(input, i, rawStart, partStart, st, acc, AfterQuote(st, input[i]));
        i := i + 1;
      } else if input[i] == '|' && !inQuote {
        if partCount >= maxParts {
          SplitFailsAtPipe(input, i, rawStart, partStart, acc, maxParts);
          return -1, parts;
        }
        var part, next := CutStage(input, i, rawStart, partStart, acc);
        if |part| == 0 {
          SplitBlankAtPipe(input, i, rawStart, partStart, acc, maxParts);
          return -1, parts;
        }
        StageAdded(acc, input[rawStart..i]);
        parts := parts + [part];
        acc := acc + [input[rawStart..i]];
        partCount := partCount + 1;
        partStart := next;
        rawStart := i + 1;
        i := partStart - 1;
        i := i + 1;
      } else {
        SplitStepKeep(input, i, rawStart, partStart, st, acc, st);
        i := i + 1;
      }
    }
    n, parts := LastStage(input, partStart, parts, rawStart, if inQuote then Quoted(quoteChar) else Unquoted, acc, maxParts);
  }

  /** The end of split_commands: the text after the last `|` becomes the
      last stage unless it is blank. */
  method LastStage(input: string, partStart: nat, parts: seq<string>, ghost rawStart: nat,
                   ghost st: QuoteState, ghost acc: seq<string>, maxParts: int)
    returns (n: int, parts': seq<string>)
    requires SplitInv(input, |input|, rawStart, partStart, st, acc)
    requires parts == TrimAll(acc) && NoneBlank(acc)
    ensures n == -1 <==> SplitOutcome(input, maxParts).None?
    ensures n != -1 ==> n == |parts'| && parts' == SplitOutcome(input, maxParts).value
  {
    SplitAtEnd(input, rawStart, partStart, st, acc, maxParts);
    var partCount := |parts|;
    parts' := parts;
    if partCount >= maxParts {
      return -1, parts';
    }
    var piece := input[partStart..];
    var lo, hi := TrimWhitespace(piece);
    var part := piece[lo..hi];
    if |part| == 0 {
      if partCount > 0 {
        return partCount, parts';
      }
      return -1, parts';
    }
    parts' := parts' + [part];
    partCount := partCount + 1;
    return partCount, parts';
  }

  /** A `|` outside quotes: the stage before it is copied from `partStart`
      and trimmed, and the next stage starts after the whitespace that
      follows the `|`. */
  method CutStage(input: string, i: nat, ghost rawStart: nat, partStart: nat, ghost acc: seq<string>)
    returns (part: string, next: nat)
    requires SplitInv(input, i, rawStart, partStart, Unquoted, acc) && i < |input| && input[i] == '|'
    ensures part == Trimmed(input[rawStart..i])
    ensures SplitInv(input, next, i + 1, next, Unquoted, acc + [input[rawStart..i]])
    ensures i < next <= |input|
  {
    var piece := input[partStart..i];
    var lo, hi := TrimWhitespace(piece);
    part := piece[lo..hi];
    next := SkipSpaces(input, i + 1);
    SplitStepPipe(input, i, rawStart, partStart, acc, next);
  }

  lemma StageAdded(acc: seq<string>, seg: string)
    requires NoneBlank(acc) && Trimmed(seg) != []
    ensures NoneBlank(acc + [seg]) && TrimAll(acc + [seg]) == TrimAll(acc) + [Trimmed(seg)]
  {
    TrimAllSnoc(acc, seg);
    var a := acc + [seg];
    forall j | 0 <= j < |a| ensures Trimmed(a[j]) != [] { if j < |acc| { assert a[j] == acc[j]; } }
  }

  lemma SplitFailsAtPipe(input: string, i: nat, rawStart: nat, partStart: nat, acc: seq<string>, maxParts: int)
    requires SplitInv(input, i, rawStart, partStart, Unquoted, acc) && i < |input| && input[i] == '|'
    requires |acc| >= maxParts
    ensures SplitOutcome(input, maxParts).None?
  {
    assert input[i..][0] == input[i] && input[i..][1..] == input[i + 1..];
    SegScanGrows(input[i + 1..], Unquoted, [], acc + [input[rawStart..i]]);
  }

  lemma SplitBlankAtPipe(input: string, i: nat, rawStart: nat, partStart: nat, acc: seq<string>, maxParts: int)
    requires SplitInv(input, i, rawStart, partStart, Unquoted, acc) && i < |input| && input[i] == '|'
    requires Trimmed(input[rawStart..i]) == []
    ensures SplitOutcome(input, maxParts).None?
  {
    assert input[i..][0] == input[i] && input[i..][1..] == input[i + 1..];
    var a := acc + [input[rawStart..i]];
    var segs := RawSegments(input);
    assert segs == SegScan(input[i + 1..], Unquoted, [], a);
    SegScanGrows(input[i + 1..], Unquoted, [], a);
    assert segs[..|a|] == a;
    assert segs[|acc|] == a[|acc|];
    assert BlankBeforeLast(segs);
  }

  /** At the end of the input the reference stages are the finished ones
      plus the last, whose copy skips leading whitespace and so trims the
      same; this settles every way split_commands can end. */
  lemma SplitAtEnd(input: string, rawStart: nat, partStart: nat, st: QuoteState, acc: seq<string>, maxParts: int)
    requires SplitInv(input, |input|, rawStart, partStart, st, acc)
    requires NoneBlank(acc)
    ensures |acc| >= maxParts ==> SplitOutcome(input, maxParts).None?
    ensures |acc| < maxParts && Trimmed(input[partStart..]) == [] ==>
              SplitOutcome(input, maxParts) == if acc == [] then None else Some(TrimAll(acc))
    ensures |acc| < maxParts && Trimmed(input[partStart..]) != [] ==>
              SplitOutcome(input, maxParts) == Some(TrimAll(acc) + [Trimmed(input[partStart..])])
  {
    EndSegments(input, rawStart, partStart, st, acc);
    StagesAtEnd(acc, input[rawStart..], maxParts);
  }

  lemma EndSegments(input: string, rawStart: nat, partStart: nat, st: QuoteState, acc: seq<string>)
    requires SplitInv(input, |input|, rawStart, partStart, st, acc)
    ensures RawSegments(input) == acc + [input[rawStart..]]
    ensures Trimmed(input[partStart..]) == Trimmed(input[rawStart..])
  {
    assert input[|input|..] == [];
    assert input[rawStart..|input|] == input[rawStart..];
    assert input[rawStart..] == input[rawStart..partStart] + input[partStart..];
    TrimmedSkipsLeading(input[rawStart..partStart], input[partStart..]);
  }

  lemma StagesAtEnd(acc: seq<string>, last: string, maxParts: int)
    requires NoneBlank(acc)
    ensures |acc| >= maxParts ==> StagesOutcome(acc + [last], maxParts).None?
    ensures |acc| < maxParts && Trimmed(last) == [] ==>
              StagesOutcome(acc + [last], maxParts) == if acc == [] then None else Some(TrimAll(acc))
    ensures |acc| < maxParts && Trimmed(last) != [] ==>
              StagesOutcome(acc + [last], maxParts) == Some(TrimAll(acc) + [Trimmed(last)])
  {
    NoBlankBefore(acc, last);
    TrimAllSnoc(acc, last);
  }

  lemma NoBlankBefore(acc: seq<string>, last: string)
    requires NoneBlank(acc)
    ensures !BlankBeforeLast(acc + [last]) && (acc + [last])[..|acc|] == acc
  {
    var segs := acc + [last];
    assert segs[..|acc|] == acc;
    forall j | 0 <= j < |segs| - 1 ensures Trimmed(segs[j]) != [] { assert segs[j] == acc[j]; }
  }

  lemma TrimAllSnoc(acc: seq<string>, last: string)
    ensures TrimAll(acc + [last]) == TrimAll(acc) + [Trimmed(last)]
  {
    var segs := acc + [last];
    var t := TrimAll(segs);
    var u := TrimAll(acc) + [Trimmed(last)];
    assert |t| == |u|;
    forall j | 0 <= j < |t| ensures t[j] == u[j] {
      if j < |acc| { assert segs[j] == acc[j]; }
    }
  }
}
