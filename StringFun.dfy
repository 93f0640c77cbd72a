/** week1/1-C-Refresher/stringfun.c: setup_buff copies the user string into
    the 50-byte buffer with every run of spaces and tabs collapsed to one
    space and pads the rest with dots; reverse_string and word_print write out
    views of the buffer, modelled as what they emit. */
module StringFun {
  import opened Text

  const BUFFER_SZ: int := 50

  /** The characters word_print ends a word at. */
  const WordEnds: set<char> := {' ', '\0'}

  /** The text setup_buff copies: each maximal run of blanks becomes one
      space; `prevWasSpace` says whether what came before ended in a run. */
  function CollapseFrom(s: string, prevWasSpace: bool): string
  {
    if s == [] then []
    else if s[0] in Blank then (if prevWasSpace then [] else " ") + CollapseFrom(s[1..], true)
    else [s[0]] + CollapseFrom(s[1..], false)
  }

  function Collapse(s: string): string
  {
    CollapseFrom(s, false)
  }

  function Dots(n: nat): (r: string)
    ensures |r| == n && forall k :: 0 <= k < n ==> r[k] == '.'
  {
    if n == 0 then [] else Dots(n - 1) + "."
  }

  // ---------------------------------------------------------------------
  // Properties of the collapsed text

  /** Collapsing never lengthens, leaves no tab and no two spaces in a row,
      and after a run it never starts with a space. */
  lemma {:induction false} CollapseShape(s: string, prevWasSpace: bool)
    ensures var r := CollapseFrom(s, prevWasSpace);
            |r| <= |s| && (NoNul(s) ==> NoNul(r)) &&
            (forall k :: 0 <= k < |r| ==> r[k] != '\t') &&
            (forall k :: 0 <= k < |r| - 1 ==> !(r[k] == ' ' && r[k + 1] == ' ')) &&
            (prevWasSpace ==> r == [] || r[0] != ' ')
    decreases |s|
  {
    if s != [] {
      CollapseShape(s[1..], s[0] in Blank);
    }
  }

  lemma {:induction false} CollapsePlain(w: string, r: string, prevWasSpace: bool)
    requires forall k :: 0 <= k < |w| ==> w[k] !in Blank
    ensures CollapseFrom(w + r, prevWasSpace) == w + CollapseFrom(r, if w == [] then prevWasSpace else false)
    decreases |w|
  {
    if w == [] {
      assert w + r == r;
    } else {
      assert (w + r)[0] == w[0] && (w + r)[1..] == w[1..] + r;
      CollapsePlain(w[1..], r, false);
    }
  }

  /** The first blank of `s`, at `n`, becomes a space unless it continues
      a run. */
  lemma CollapseAtBlank(s: string, prevWasSpace: bool, n: nat)
    requires n < |s| && s[n] in Blank
    requires forall k :: 0 <= k < n ==> s[k] !in Blank
    ensures CollapseFrom(s, prevWasSpace) ==
            s[..n] + (if n == 0 && prevWasSpace then [] else [' ']) + CollapseFrom(s[n + 1..], true)
  {
    var w, r := s[..n], s[n..];
    assert s == w + r;
    CollapsePlain(w, r, prevWasSpace);
    assert r[0] == s[n] && r[1..] == s[n + 1..];
  }

  /** Collapsing keeps the words: strtok on spaces and tabs finds the same
      words in the buffer as in the user string. */
  lemma {:induction false} CollapseKeepsWords(s: string, prevWasSpace: bool)
    ensures Fields(CollapseFrom(s, prevWasSpace), Blank) == Fields(s, Blank)
    decreases |s|
  {
    var n := RunLen(s, Blank);
    var w := s[..n];
    if n == |s| {
      assert s == w + [];
      CollapsePlain(w, [], prevWasSpace);
    } else {
      var rest := s[n + 1..];
      var c := CollapseFrom(rest, true);
      calc {
        Fields(s, Blank);
      == { assert s == w + [s[n]] + rest; }
        Fields(w + [s[n]] + rest, Blank);
      == { FieldsSplit(w, s[n], rest, Blank); }
        Fields(w, Blank) + Fields(rest, Blank);
      == { CollapseKeepsWords(rest, true); }
        Fields(w, Blank) + Fields(c, Blank);
      }
      if n == 0 && prevWasSpace {
        calc {
          CollapseFrom(s, prevWasSpace);
        == { CollapseAtBlank(s, prevWasSpace, n); }
          s[..0] + [] + c;
        == { assert s[..0] + [] == []; }
          c;
        }
        assert Fields(w, Blank) == [];
      } else {
        calc {
          Fields(CollapseFrom(s, prevWasSpace), Blank);
        == { CollapseAtBlank(s, prevWasSpace, n); }
          Fields(w + [' '] + c, Blank);
        == { FieldsSplit(w, ' ', c, Blank); }
          Fields(w, Blank) + Fields(c, Blank);
        }
      }
    }
  }

  /** Collapsing twice is collapsing once. */
  lemma {:induction false} CollapseIdempotent(s: string, prevWasSpace: bool)
    ensures CollapseFrom(CollapseFrom(s, prevWasSpace), prevWasSpace) == CollapseFrom(s, prevWasSpace)
    decreases |s|
  {
    if s != [] {
      var r := CollapseFrom(s[1..], s[0] in Blank);
      CollapseIdempotent(s[1..], s[0] in Blank);
      if s[0] in Blank && !prevWasSpace {
        assert (" " + r)[1..] == r;
      } else if s[0] in Blank {
        assert CollapseFrom(s, prevWasSpace) == r;
      } else {
        assert CollapseFrom(s, prevWasSpace) == [s[0]] + r;
        assert ([s[0]] + r)[0] == s[0] && ([s[0]] + r)[1..] == r;
      }
    }
  }

  // ---------------------------------------------------------------------
  // setup_buff

  /** setup_buff with the bound checked before each write and the collapsed
      length returned, as its closing comment intends. */
  method SetupBuff(buff: array<char>, userStr: string, len: int) returns (rc: int)
    requires buff.Length == BUFFER_SZ && NoNul(userStr) && 0 <= len
    modifies buff
    ensures len > BUFFER_SZ ==> rc == -1 && buff[..] == old(buff[..])
    ensures len <= BUFFER_SZ ==> (rc == -1 <==> |Collapse(userStr)| > len)
    ensures len <= BUFFER_SZ && rc == -1 ==>
              buff[..len] == Collapse(userStr)[..len] && buff[len..] == old(buff[len..])
    ensures rc != -1 ==> rc == |Collapse(userStr)| && buff[..] == Collapse(userStr) + Dots(BUFFER_SZ - rc)
  {
    if len > BUFFER_SZ {
      return -1;
    }
    var ok, userStrLen := CopyCollapsed(buff, userStr, len);
    if !ok {
      return -1;
    }
    rc := userStrLen;
    ghost var written: string := buff[..userStrLen];
    while userStrLen < BUFFER_SZ
      invariant rc <= userStrLen <= BUFFER_SZ && userStrLen == |written|
      invariant written == Collapse(userStr) + Dots(userStrLen - rc)
      invariant forall k :: 0 <= k < userStrLen ==> buff[k] == written[k]
    {
      buff[userStrLen] := '.';
      written := written + ".";
      userStrLen := userStrLen + 1;
    }
    assert buff[..] == written;
  }

  /** What one character of the source string adds to the copy. */
  function Piece(c: char, prevWasSpace: bool): string
  {
    if c !in Blank then [c] else if prevWasSpace then [] else " "
  }

  /** One character of the source string in the copy loop, after `written`
      has been copied. */
  lemma CollapseStep(s: string, j: nat, prevWasSpace: bool, written: string)
    requires j < |s|
    ensures written + CollapseFrom(s[j..], prevWasSpace) ==
            (written + Piece(s[j], prevWasSpace)) + CollapseFrom(s[j + 1..], s[j] in Blank)
  {
    assert s[j..][0] == s[j] && s[j..][1..] == s[j + 1..];
  }

  /** The copy loop of setup_buff, checking the bound before each write. */
  method CopyCollapsed(buff: array<char>, userStr: string, len: int) returns (ok: bool, userStrLen: nat)
    requires 0 <= len <= buff.Length
    modifies buff
    ensures ok <==> |Collapse(userStr)| <= len
    ensures ok ==> userStrLen == |Collapse(userStr)| && buff[..userStrLen] == Collapse(userStr)
    ensures !ok ==> buff[..len] == Collapse(userStr)[..len]
    ensures forall k :: (if ok then userStrLen else len) <= k < buff.Length ==> buff[k] == old(buff[k])
  {
    ghost var orig := buff[..];
    var j := 0;
    userStrLen := 0;
    var prevWasSpace := false;
    ghost var written: string := [];
    while j < |userStr|
      invariant CopyInv(buff, orig, userStr, len, j, userStrLen, prevWasSpace, written)
    {
      var full;
      full, userStrLen, prevWasSpace, written := CopyChar(buff, orig, userStr, len, j, userStrLen, prevWasSpace, written);
      if full {
        KeptPast(buff, orig, len);
        return false, userStrLen;
      }
      j := j + 1;
    }
    assert userStr[|userStr|..] == [];
    KeptPast(buff, orig, userStrLen);
    ok := true;
  }

  /** What the copy loop keeps: `written`, the collapsed text of
      `userStr[..j]`, is at the front of the buffer within `len`, and the
      rest of the buffer is as it was. */
  ghost predicate CopyInv(buff: array<char>, orig: seq<char>, userStr: string, len: int, j: nat,
                          userStrLen: nat, prevWasSpace: bool, written: string)
    reads buff
  {
    j <= |userStr| && userStrLen == |written| <= len <= buff.Length == |orig| &&
    Collapse(userStr) == written + CollapseFrom(userStr[j..], prevWasSpace) &&
    buff[..userStrLen] == written && buff[userStrLen..] == orig[userStrLen..]
  }

  /** The buffer past `n` is as it was. */
  lemma KeptPast(buff: array<char>, orig: seq<char>, n: nat)
    requires n <= buff.Length == |orig| && buff[n..] == orig[n..]
    ensures forall k :: n <= k < buff.Length ==> buff[k] == orig[k]
  {
    forall k | n <= k < buff.Length ensures buff[k] == orig[k] {
      assert buff[n..][k - n] == buff[k];
    }
  }

  /** One turn of the copy loop: a blank after a blank is skipped, any
      other character is emitted unless the buffer is full. */
  method CopyChar(buff: array<char>, ghost orig: seq<char>, userStr: string, len: int, j: nat,
                  userStrLen: nat, prevWasSpace: bool, ghost written: string)
    returns (full: bool, userStrLen': nat, prevWasSpace': bool, ghost written': string)
    requires j < |userStr| && CopyInv(buff, orig, userStr, len, j, userStrLen, prevWasSpace, written)
    modifies buff
    ensures !full ==> CopyInv(buff, orig, userStr, len, j + 1, userStrLen', prevWasSpace', written')
    ensures full ==> userStrLen' == len < |Collapse(userStr)| && Collapse(userStr)[..len] == written &&
                     buff[..len] == written && buff[len..] == orig[len..]
  {
    userStrLen', prevWasSpace', written' := userStrLen, prevWasSpace, written;
    var c := userStr[j];
    CollapseStep(userStr, j, prevWasSpace, written);
    assert userStr[j..][1..] == userStr[j + 1..];
    if c == ' ' || c == '\t' {
      if !prevWasSpace {
        full := Emit(buff, orig, userStr, len, ' ', written, CollapseFrom(userStr[j + 1..], true), userStrLen);
        if full {
          return;
        }
        written' := written + " ";
        userStrLen' := userStrLen + 1;
      }
      prevWasSpace' := true;
    } else {
      full := Emit(buff, orig, userStr, len, c, written, CollapseFrom(userStr[j + 1..], false), userStrLen);
      if full {
        return;
      }
      written' := written + [c];
      userStrLen' := userStrLen + 1;
      prevWasSpace' := false;
    }
    full := false;
  }

  /** One character of the collapsed text in the corrected copy loop: the
      bound is checked first, and `ch` is stored only when it fits. */
  method Emit(buff: array<char>, ghost orig: seq<char>, userStr: string, len: int, ch: char, ghost written: string,
              ghost rest: string, userStrLen: nat)
    returns (full: bool)
    requires userStrLen == |written| <= len <= buff.Length == |orig|
    requires buff[..userStrLen] == written && buff[userStrLen..] == orig[userStrLen..]
    requires Collapse(userStr) == (written + [ch]) + rest
    modifies buff
    ensures full <==> userStrLen >= len
    ensures full ==> |Collapse(userStr)| > len && Collapse(userStr)[..len] == written && buff[..] == old(buff[..])
    ensures !full ==> buff[..userStrLen + 1] == written + [ch] && buff[userStrLen + 1..] == orig[userStrLen + 1..]
  {
    if userStrLen >= len {
      CopyFull(userStr, written, [ch] + rest, len);
      return true;
    }
    Store(buff, userStrLen, ch, written);
    assert buff[userStrLen + 1..] == old(buff[..])[userStrLen + 1..];
    assert old(buff[..])[userStrLen..][1..] == orig[userStrLen + 1..];
    full := false;
  }

  /** `*dest = c` in the copy loop: the buffer now holds `written + [c]`
      and is unchanged past it. */
  method Store(buff: array<char>, pos: nat, c: char, ghost written: string)
    requires pos < buff.Length && buff[..pos] == written
    modifies buff
    ensures buff[..pos + 1] == written + [c]
    ensures forall k :: pos < k < buff.Length ==> buff[k] == old(buff[k])
  {
    buff[pos] := c;
    assert buff[..pos + 1] == buff[..pos] + [c];
  }

  /** The copy is full while the collapsed text goes on. */
  lemma CopyFull(userStr: string, written: string, rest: string, len: int)
    requires Collapse(userStr) == written + rest && |written| == len && rest != []
    ensures |Collapse(userStr)| > len && Collapse(userStr)[..len] == written
  {
    assert (written + rest)[..|written|] == written;
  }

  /** The memory holding `w` from offset 0 on, and nothing else. */
  function MemOf(w: string): (m: map<int, char>)
  {
    map k | 0 <= k < |w| :: w[k]
  }

  /** Storing one more character at the next offset extends the memory. */
  lemma MemOfSnoc(w: string, c: char)
    ensures MemOf(w + [c]) == MemOf(w)[|w| := c]
  {
    var m, m' := MemOf(w + [c]), MemOf(w)[|w| := c];
    assert forall k :: k in m <==> k in m';
    forall k | k in m ensures m[k] == m'[k] {
      if k < |w| { assert (w + [c])[k] == w[k]; }
    }
  }

  /** `*dest = c` on the memory map, with `dest` just past what is written. */
  method StoreMem(mem: map<int, char>, dest: nat, c: char, ghost written: string) returns (mem': map<int, char>)
    requires mem == MemOf(written) && dest == |written|
    ensures mem' == MemOf(written + [c])
  {
    MemOfSnoc(written, c);
    mem' := mem[dest := c];
  }

  /** setup_buff as written, over a memory map from offsets past `buff` to
      the bytes stored there: a character is stored before the bound is
      checked, so an over-long string writes offset `len`, one past the
      end; and the value returned on success is `dest - buff`, always
      BUFFER_SZ, whatever the string's length. */
  method SetupBuffAsWritten(userStr: string, len: int) returns (rc: int, mem: map<int, char>)
    requires NoNul(userStr) && 0 <= len
    ensures len > BUFFER_SZ ==> rc == -1 && mem == map[]
    ensures len <= BUFFER_SZ ==> (rc == -1 <==> |Collapse(userStr)| > len)
    ensures len <= BUFFER_SZ && rc == -1 ==>
              len in mem && mem == MemOf(Collapse(userStr)[..len + 1])
    ensures rc != -1 ==>
              rc == BUFFER_SZ && mem == MemOf(Collapse(userStr) + Dots(BUFFER_SZ - |Collapse(userStr)|))
  {
    mem := map[];
    if len > BUFFER_SZ {
      return -1, mem;
    }
    var fits, dest;
    fits, dest, mem := CopyAsWritten(userStr, len);
    if !fits {
      return -1, mem;
    }
    dest, mem := PadDots(mem, dest, Collapse(userStr));
    rc := dest;
  }

  /** The copy loop of setup_buff as written: each character is stored and
      `dest` advanced before the bound is checked. */
  method CopyAsWritten(userStr: string, len: int) returns (fits: bool, dest: nat, mem: map<int, char>)
    requires 0 <= len
    ensures fits <==> |Collapse(userStr)| <= len
    ensures !fits ==> len in mem && mem == MemOf(Collapse(userStr)[..len + 1])
    ensures fits ==> dest == |Collapse(userStr)| && mem == MemOf(Collapse(userStr))
  {
    mem := map[];
    var j := 0;
    dest := 0;
    var prevWasSpace := false;
    ghost var written: string := [];
    while j < |userStr|
      invariant 0 <= j <= |userStr| && dest == |written| <= len
      invariant Collapse(userStr) == written + CollapseFrom(userStr[j..], prevWasSpace)
      invariant mem == MemOf(written)
    {
      var c := userStr[j];
      CollapseStep(userStr, j, prevWasSpace, written);
      if c == ' ' || c == '\t' {
        if !prevWasSpace {
          mem := StoreMem(mem, dest, ' ', written);
          written := written + " ";
          dest := dest + 1;
          if dest > len {
            StoredPastEnd(userStr, written, CollapseFrom(userStr[j + 1..], true), len);
            return false, dest, mem;
          }
        }
        prevWasSpace := true;
      } else {
        mem := StoreMem(mem, dest, c, written);
        written := written + [c];
        dest := dest + 1;
        if dest > len {
          StoredPastEnd(userStr, written, CollapseFrom(userStr[j + 1..], false), len);
          return false, dest, mem;
        }
        prevWasSpace := false;
      }
      j := j + 1;
    }
    assert Collapse(userStr) == written;
    fits := true;
  }

  /** The padding loop: dots from `dest` up to BUFFER_SZ; `dest` ends at
      BUFFER_SZ. */
  method PadDots(mem: map<int, char>, dest: nat, ghost text: string) returns (dest': nat, mem': map<int, char>)
    requires mem == MemOf(text) && dest == |text| <= BUFFER_SZ
    ensures dest' == BUFFER_SZ && mem' == MemOf(text + Dots(BUFFER_SZ - |text|))
  {
    dest', mem' := dest, mem;
    ghost var written := text;
    while dest' < BUFFER_SZ
      invariant dest <= dest' <= BUFFER_SZ && |written| == dest'
      invariant written == text + Dots(dest' - dest)
      invariant mem' == MemOf(written)
    {
      mem' := StoreMem(mem', dest', '.', written);
      written := written + ".";
      dest' := dest' + 1;
    }
  }

  /** The copy has reached offset `len`: what is stored is the collapsed
      text up to and including that offset. */
  lemma StoredPastEnd(userStr: string, written: string, rest: string, len: int)
    requires Collapse(userStr) == written + rest && |written| == len + 1 && 0 <= len
    ensures |Collapse(userStr)| > len && Collapse(userStr)[..len + 1] == written
    ensures len in MemOf(written)
  {
    assert (written + rest)[..|written|] == written;
  }

  // ---------------------------------------------------------------------
  // reverse_string

  function Reversed(s: string): (r: string)
    ensures |r| == |s|
  {
    if s == [] then [] else Reversed(s[1..]) + [s[0]]
  }

  /** Position `k` of the reversal holds position `|s| - 1 - k` of `s`. */
  lemma {:induction false} ReversedAt(s: string, k: nat)
    requires k < |s|
    ensures Reversed(s)[k] == s[|s| - 1 - k]
    decreases |s|
  {
    if k < |s| - 1 {
      ReversedAt(s[1..], k);
    }
  }

  lemma ReversedTwice(s: string)
    ensures Reversed(Reversed(s)) == s
  {
    var r := Reversed(s);
    forall k | 0 <= k < |s| ensures Reversed(r)[k] == s[k] {
      ReversedAt(r, k);
      ReversedAt(s, |s| - 1 - k);
    }
  }

  /** What reverse_string prints: the header, `buff[str_len-1]` down to
      `buff[0]`, and a newline. */
  method ReverseString(buff: array<char>, strLen: int) returns (out: string)
    requires 0 <= strLen <= buff.Length
    ensures out == "Reversed String: " + Reversed(buff[..strLen]) + "\n"
  {
    ghost var s := buff[..strLen];
    var rev: string := [];
    var i := strLen - 1;
    while i >= 0
      invariant -1 <= i < strLen
      invariant rev == Reversed(s[i + 1..])
    {
      ReversedStep(s, i);
      rev := rev + [buff[i]];
      i := i - 1;
    }
    out := "Reversed String: " + rev + "\n";
  }

  lemma ReversedStep(s: string, i: nat)
    requires i < |s|
    ensures Reversed(s[i..]) == Reversed(s[i + 1..]) + [s[i]]
  {
    assert s[i..][1..] == s[i + 1..];
  }

  // ---------------------------------------------------------------------
  // word_print

  /** One printed line: "<index>. <word> (<length>)". */
  datatype WordLine = WordLine(index: int, word: string, len: int)

  function Numbered(ws: seq<string>): (r: seq<WordLine>)
    ensures |r| == |ws|
  {
    if ws == [] then [] else Numbered(ws[..|ws| - 1]) + [WordLine(|ws|, ws[|ws| - 1], |ws[|ws| - 1]|)]
  }

  /** Line `k` carries number `k + 1`, the k-th word and its length. */
  lemma {:induction false} NumberedAt(ws: seq<string>, k: nat)
    requires k < |ws|
    ensures Numbered(ws)[k] == WordLine(k + 1, ws[k], |ws[k]|)
    decreases |ws|
  {
    if k < |ws| - 1 {
      NumberedAt(ws[..|ws| - 1], k);
    }
  }

  /** The longest prefix of `s` that is empty or ends at a word end. */
  function Terminated(s: string): (r: string)
    ensures r <= s && (r == [] || r[|r| - 1] in WordEnds)
    ensures forall k :: |r| <= k < |s| ==> s[k] !in WordEnds
  {
    if s == [] then []
    else if s[|s| - 1] in WordEnds then s
    else Terminated(s[..|s| - 1])
  }

  lemma TerminatedAt(s: string, d: nat)
    requires d <= |s| && (d == 0 || s[d - 1] in WordEnds)
    requires forall k :: d <= k < |s| ==> s[k] !in WordEnds
    ensures Terminated(s) == s[..d]
  {
    var r := Terminated(s);
    assert d > 0 ==> s[d - 1] in WordEnds;
    assert |r| >= d;
    assert |r| > 0 ==> r[|r| - 1] == s[|r| - 1];
    assert |r| <= d;
  }

  /** Numbering one more word extends the printed lines by one. */
  lemma NumberedSnoc(ws: seq<string>, w: string)
    ensures Numbered(ws + [w]) == Numbered(ws) + [WordLine(|ws| + 1, w, |w|)]
  {
    assert (ws + [w])[..|ws|] == ws;
  }

  /** What the word_print loop knows after scanning `s[..i]`: the current
      word is the last `wordLen` characters, starting at `start`, after a
      word end or the start; the lines printed are the words before it. */
  ghost predicate WordInv(s: string, i: nat, wordLen: nat, start: int, lines: seq<WordLine>)
  {
    wordLen <= i <= |s| && (wordLen > 0 ==> start == i - wordLen) &&
    (i - wordLen == 0 || s[i - wordLen - 1] in WordEnds) &&
    (forall k :: i - wordLen <= k < i ==> s[k] !in WordEnds) &&
    lines == Numbered(Fields(s[..i - wordLen], WordEnds))
  }

  /** The lines once the current word is printed. */
  function Flush(s: string, wordLen: nat, start: int, lines: seq<WordLine>): seq<WordLine>
    requires wordLen > 0 ==> 0 <= start && start + wordLen <= |s|
  {
    if wordLen > 0 then lines + [WordLine(|lines| + 1, s[start..start + wordLen], wordLen)] else lines
  }

  lemma WordGrows(s: string, i: nat, wordLen: nat, start: int, lines: seq<WordLine>)
    requires WordInv(s, i, wordLen, start, lines) && i < |s| && s[i] !in WordEnds
    ensures WordInv(s, i + 1, wordLen + 1, if wordLen == 0 then i else start, lines)
  {
  }

  /** The current word, ended by the run's end `n` or by a word end at `n`. */
  lemma WordEnded(s: string, n: nat, wordLen: nat, start: int, lines: seq<WordLine>)
    requires WordInv(s, n, wordLen, start, lines)
    ensures Flush(s, wordLen, start, lines) == Numbered(Fields(s[..n], WordEnds))
  {
    var d := n - wordLen;
    RunOfPrefix(s, n, d);
    LastRun(s[..n], d);
    if wordLen > 0 {
      NumberedSnoc(Fields(s[..d], WordEnds), s[d..n]);
    }
  }

  /** The run after the last word end of `s[..n]`, seen inside `s[..n]`. */
  lemma RunOfPrefix(s: string, n: nat, d: nat)
    requires d <= n <= |s| && (d == 0 || s[d - 1] in WordEnds)
    requires forall k :: d <= k < n ==> s[k] !in WordEnds
    ensures s[..n][..d] == s[..d] && s[..n][d..] == s[d..n]
    ensures d == 0 || s[..n][d - 1] in WordEnds
    ensures forall k :: d <= k < |s[..n]| ==> s[..n][k] !in WordEnds
  {
  }

  /** The fields of `t` whose last word end is just before `d`: those of
      `t[..d]` and the run after it, if it is not empty. */
  lemma LastRun(t: string, d: nat)
    requires d <= |t| && (d == 0 || t[d - 1] in WordEnds)
    requires forall k :: d <= k < |t| ==> t[k] !in WordEnds
    ensures Fields(t, WordEnds) == Fields(t[..d], WordEnds) + (if d == |t| then [] else [t[d..]])
  {
    var pre, w := t[..d], t[d..];
    CutAt(t, d);
    RunAfter(t, d);
    FieldsAround(pre, w, [], WordEnds);
  }

  lemma CutAt(t: string, d: nat)
    requires d <= |t|
    ensures t == t[..d] + t[d..] + [] && Fields([], WordEnds) == []
  {
  }

  lemma RunAfter(t: string, d: nat)
    requires d <= |t| && (d == 0 || t[d - 1] in WordEnds)
    requires forall k :: d <= k < |t| ==> t[k] !in WordEnds
    ensures t[..d] == [] || t[..d][d - 1] in WordEnds
    ensures forall k :: 0 <= k < |t[d..]| ==> t[d..][k] !in WordEnds
  {
  }

  lemma WordEndsAt(s: string, i: nat, wordLen: nat, start: int, lines: seq<WordLine>)
    requires WordInv(s, i, wordLen, start, lines) && i < |s| && s[i] in WordEnds
    ensures WordInv(s, i + 1, 0, start, Flush(s, wordLen, start, lines))
  {
    WordEnded(s, i, wordLen, start, lines);
    assert s[..i + 1] == s[..i] + [s[i]] + [];
    FieldsSplit(s[..i], s[i], [], WordEnds);
    assert Fields([], WordEnds) == [];
    assert Fields(s[..i], WordEnds) + [] == Fields(s[..i], WordEnds);
  }

  /** One character of the word_print loop: a space or NUL prints the
      current word, if any, and any other character extends it. */
  method WordStep(buff: array<char>, ghost s: string, i: nat, wordLen: nat, start: int,
                  lines: seq<WordLine>, wordIndex: int)
    returns (wordLen': nat, start': int, lines': seq<WordLine>, wordIndex': int)
    requires s == buff[..] && i < |s| && WordInv(s, i, wordLen, start, lines) && wordIndex == |lines| + 1
    ensures WordInv(s, i + 1, wordLen', start', lines') && wordIndex' == |lines'| + 1
  {
    wordLen', start', lines', wordIndex' := wordLen, start, lines, wordIndex;
    if buff[i] == ' ' || buff[i] == '\0' {
      WordEndsAt(s, i, wordLen, start, lines);
      if wordLen > 0 {
        lines', wordIndex' := PrintWord(buff, s, i, wordLen, start, lines, wordIndex);
      }
      wordLen' := 0;
    } else {
      WordGrows(s, i, wordLen, start, lines);
      if wordLen == 0 {
        start' := i;
      }
      wordLen' := wordLen + 1;
    }
  }

  /** Prints the current word, the `wordLen` characters from `start`. */
  method PrintWord(buff: array<char>, ghost s: string, n: nat, wordLen: nat, start: int,
                   lines: seq<WordLine>, wordIndex: int)
    returns (lines': seq<WordLine>, wordIndex': int)
    requires s == buff[..] && n <= |s| && WordInv(s, n, wordLen, start, lines) && wordIndex == |lines| + 1
    requires wordLen > 0
    ensures lines' == Flush(s, wordLen, start, lines) && wordIndex' == |lines'| + 1
  {
    assert buff[start..start + wordLen] == s[start..start + wordLen];
    lines' := lines + [WordLine(wordIndex, buff[start..start + wordLen], wordLen)];
    wordIndex' := wordIndex + 1;
  }

  /** The word_print loop over `buff[0..n)`: the words it has printed and
      the word still open at `n`. */
  method ScanWords(buff: array<char>, ghost s: string, n: nat)
    returns (wordLen: nat, start: int, lines: seq<WordLine>, wordIndex: int)
    requires s == buff[..] && n <= |s|
    ensures WordInv(s, n, wordLen, start, lines) && wordIndex == |lines| + 1
  {
    lines := [];
    wordIndex := 1;
    wordLen := 0;
    start := 0;
    var i := 0;
    while i < n
      invariant i <= n && WordInv(s, i, wordLen, start, lines) && wordIndex == |lines| + 1
    {
      wordLen, start, lines, wordIndex := WordStep(buff, s, i, wordLen, start, lines, wordIndex);
      i := i + 1;
    }
  }

  /** word_print with the end of the range taken as the end of the last
      word, instead of reading `buff[str_len]`. */
  method WordPrint(buff: array<char>, strLen: int) returns (lines: seq<WordLine>)
    requires 0 <= strLen <= buff.Length
    ensures lines == Numbered(Fields(buff[..strLen], WordEnds))
  {
    ghost var s := buff[..];
    assert s[..strLen] == buff[..strLen];
    var wordLen, start, wordIndex;
    wordLen, start, lines, wordIndex := ScanWords(buff, s, strLen);
    // the iteration at i == str_len: the end of the range ends the last word
    WordEnded(s, strLen, wordLen, start, lines);
    if wordLen > 0 {
      lines, wordIndex := PrintWord(buff, s, strLen, wordLen, start, lines, wordIndex);
    }
  }

  /** word_print as written: it scans `buff[0..str_len]` inclusive, reading
      one character past the string, and prints a word only when a space or
      NUL follows it, so a last word that runs into that character is never
      printed. When `str_len` is the buffer's size, as in the call from
      main, the character read lies past the buffer; `past` stands for
      whatever memory holds there. */
  method WordPrintAsWritten(buff: array<char>, strLen: int, past: char) returns (lines: seq<WordLine>)
    requires 0 <= strLen <= buff.Length
    ensures lines == Numbered(Fields(Terminated(buff[..strLen] + [if strLen < buff.Length then buff[strLen] else past]), WordEnds))
  {
    var at := if strLen < buff.Length then buff[strLen] else past;
    // the memory the loop reads: the string, then the character after it
    var mem := new char[strLen + 1](i requires 0 <= i <= strLen reads buff => if i < strLen then buff[i] else at);
    ghost var s := mem[..];
    assert s == buff[..strLen] + [at];
    var wordLen, start, wordIndex;
    wordLen, start, lines, wordIndex := ScanWords(mem, s, strLen + 1);
    AsWrittenLines(s, strLen + 1, wordLen, start, lines);
    assert s[..strLen + 1] == s;
  }

  /** Only the words followed by a word end inside the scanned range are
      printed by the loop as written. */
  lemma AsWrittenLines(s: string, n: nat, wordLen: nat, start: int, lines: seq<WordLine>)
    requires WordInv(s, n, wordLen, start, lines)
    ensures lines == Numbered(Fields(Terminated(s[..n]), WordEnds))
  {
    TerminatedAt(s[..n], n - wordLen);
    assert s[..n][..n - wordLen] == s[..n - wordLen];
  }

  /** The two agree whenever `buff[str_len]` is a space or NUL. */
  lemma AsWrittenAgrees(s: string, c: char)
    requires c in WordEnds
    ensures Fields(Terminated(s + [c]), WordEnds) == Fields(s, WordEnds)
  {
    FieldsSplit(s, c, [], WordEnds);
    assert s + [c] + [] == s + [c];
  }

  /** With "hi." in the buffer and str_len 2 the word "hi" is printed by the
      corrected loop and dropped by the loop as written. */
  lemma LastWordDropped()
    ensures Fields(Terminated("hi."), WordEnds) == []
    ensures Fields("hi", WordEnds) == ["hi"]
  {
    assert "hi."[..2] == "hi" && "hi"[..1] == "h" && "h"[..0] == [];
    RunLenAt("hi", 2, WordEnds);
    assert "hi"[..2] == "hi" && "hi"[2..] == [];
  }
}
