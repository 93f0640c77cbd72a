/** Character classes, whitespace trimming and strtok-style field splitting,
    shared by the three shells and the buffer tool. A C string is modelled as
    a `string` holding no NUL character; the NUL terminator itself is implicit. */
module Text {

  /** The six characters that each shell's own `isspace` accepts: space,
      form feed (U+000C), newline, carriage return, tab, vertical tab (U+000B). */
  predicate IsSpace(c: char)
  {
    c == ' ' || c == '\U{C}' || c == '\n' || c == '\r' || c == '\t' || c == '\U{B}'
  }

  /** Space and tab: the delimiters of build_cmd_list's argument split and
      the whitespace setup_buff collapses. */
  const Blank: set<char> := {' ', '\t'}

  predicate AllSpace(s: string)
  {
    forall k :: 0 <= k < |s| ==> IsSpace(s[k])
  }

  /** The contents of a C string never include its terminator. */
  predicate NoNul(s: string)
  {
    forall k :: 0 <= k < |s| ==> s[k] != '\0'
  }

  predicate IsQuote(c: char)
  {
    c == '"' || c == '\''
  }

  /** Whether a quote is open, and which quote character closes it. */
  datatype QuoteState = Unquoted | Quoted(closer: char)

  function TrimLeft(s: string): (r: string)
    ensures |r| <= |s|
    ensures r == [] || !IsSpace(r[0])
  {
    if s != [] && IsSpace(s[0]) then TrimLeft(s[1..]) else s
  }

  function TrimRight(s: string): (r: string)
    ensures |r| <= |s|
    ensures r == [] || !IsSpace(r[|r| - 1])
  {
    if s != [] && IsSpace(s[|s| - 1]) then TrimRight(s[..|s| - 1]) else s
  }

  /** TrimLeft drops a whitespace prefix and keeps the rest. */
  lemma {:induction false} TrimLeftShape(s: string)
    ensures TrimLeft(s) == s[|s| - |TrimLeft(s)|..]
    ensures AllSpace(s[..|s| - |TrimLeft(s)|])
  {
    if s != [] && IsSpace(s[0]) {
      var r := TrimLeft(s[1..]);
      TrimLeftShape(s[1..]);
      assert s[|s| - |r|..] == s[1..][|s| - 1 - |r|..];
      var p := s[..|s| - |r|];
      forall k | 0 <= k < |p| ensures IsSpace(p[k]) {
        if k > 0 { assert p[k] == s[1..][..|s| - 1 - |r|][k - 1]; }
      }
    } else {
      assert s[|s|..] == [];
    }
  }

  /** TrimRight drops a whitespace suffix and keeps the rest. */
  lemma {:induction false} TrimRightShape(s: string)
    ensures TrimRight(s) == s[..|TrimRight(s)|]
    ensures AllSpace(s[|TrimRight(s)|..])
  {
    if s != [] && IsSpace(s[|s| - 1]) {
      var r := TrimRight(s[..|s| - 1]);
      TrimRightShape(s[..|s| - 1]);
      assert s[..|s| - 1][..|r|] == s[..|r|];
      var p := s[|r|..];
      forall k | 0 <= k < |p| ensures IsSpace(p[k]) {
        if k < |s| - 1 - |r| { assert p[k] == s[..|s| - 1][|r|..][k]; }
      }
    } else {
      assert s[..|s|] == s;
    }
  }

  /** What trim_whitespace leaves: the input without leading and trailing
      whitespace. */
  function Trimmed(s: string): string
  {
    TrimRight(TrimLeft(s))
  }

  lemma {:induction false} TrimLeftAt(s: string, lo: nat)
    requires lo <= |s| && AllSpace(s[..lo])
    requires lo == |s| || !IsSpace(s[lo])
    ensures TrimLeft(s) == s[lo..]
  {
    if lo > 0 {
      assert IsSpace(s[..lo][0]);
      assert s[1..][..lo - 1] == s[..lo][1..];
      TrimLeftAt(s[1..], lo - 1);
      assert s[1..][lo - 1..] == s[lo..];
    } else if s != [] {
      assert !IsSpace(s[0]);
    }
  }

  lemma {:induction false} TrimRightAt(s: string, hi: nat)
    requires hi <= |s| && AllSpace(s[hi..])
    requires hi == 0 || !IsSpace(s[hi - 1])
    ensures TrimRight(s) == s[..hi]
  {
    if hi < |s| {
      assert IsSpace(s[hi..][|s| - 1 - hi]);
      assert s[..|s| - 1][hi..] == s[hi..][..|s| - 1 - hi];
      TrimRightAt(s[..|s| - 1], hi);
      assert s[..|s| - 1][..hi] == s[..hi];
    } else if s != [] {
      assert s[..hi] == s;
    }
  }

  lemma AllSpaceOutside(s: string, lo: nat)
    requires lo <= |s| && AllSpace(s[..lo]) && AllSpace(s[lo..])
    ensures AllSpace(s)
  {
    forall k | 0 <= k < |s| ensures IsSpace(s[k]) {
      if k < lo { assert s[..lo][k] == s[k]; } else { assert s[lo..][k - lo] == s[k]; }
    }
  }

  /** Any pair of cut points that removes only whitespace and lands on
      non-whitespace at both ends gives the trimmed string. */
  lemma TrimmedAt(s: string, lo: nat, hi: nat)
    requires lo <= hi <= |s|
    requires AllSpace(s[..lo]) && AllSpace(s[hi..])
    requires lo < hi ==> !IsSpace(s[lo]) && !IsSpace(s[hi - 1])
    ensures Trimmed(s) == s[lo..hi]
  {
    if lo == hi {
      TrimmedAllSpace(s, lo);
    } else {
      TrimmedInner(s, lo, hi);
    }
  }

  lemma TrimmedAllSpace(s: string, lo: nat)
    requires lo <= |s| && AllSpace(s[..lo]) && AllSpace(s[lo..])
    ensures Trimmed(s) == []
  {
    AllSpaceOutside(s, lo);
    assert s[..|s|] == s;
    TrimLeftAt(s, |s|);
  }

  lemma TrimmedInner(s: string, lo: nat, hi: nat)
    requires lo < hi <= |s|
    requires AllSpace(s[..lo]) && AllSpace(s[hi..])
    requires !IsSpace(s[lo]) && !IsSpace(s[hi - 1])
    ensures Trimmed(s) == s[lo..hi]
  {
    TrimLeftAt(s, lo);
    var t := s[lo..];
    assert t[hi - lo..] == s[hi..];
    assert t[hi - lo - 1] == s[hi - 1];
    TrimRightAt(t, hi - lo);
    assert t[..hi - lo] == s[lo..hi];
  }

  /** Number of whitespace characters trim_whitespace skips at the front. */
  function LeadingSpaces(s: string): (n: nat)
    ensures n <= |s|
  {
    |s| - |TrimLeft(s)|
  }

  lemma TrimmedIsSlice(s: string)
    ensures LeadingSpaces(s) + |Trimmed(s)| <= |s|
    ensures Trimmed(s) == s[LeadingSpaces(s)..LeadingSpaces(s) + |Trimmed(s)|]
  {
    var l := TrimLeft(s);
    var r := TrimRight(l);
    var lo := |s| - |l|;
    TrimLeftShape(s);
    TrimRightShape(l);
    assert s[lo..] == l;
    assert l[..|r|] == r;
    assert s[lo..lo + |r|] == s[lo..][..|r|];
  }

  lemma TrimmedEmptyIff(s: string)
    ensures Trimmed(s) == [] <==> AllSpace(s)
  {
    var l := TrimLeft(s);
    var r := TrimRight(l);
    var lo := |s| - |l|;
    TrimLeftShape(s);
    TrimRightShape(l);
    if r == [] {
      assert s[lo..] == l;
      assert l[|r|..] == l;
      AllSpaceOutside(s, lo);
    } else {
      assert r[0] == l[0];
      assert s[lo] == l[0];
    }
  }

  /** trim_whitespace returns a contiguous piece of its input that neither
      starts nor ends with whitespace; an all-whitespace input trims to
      empty; trimming twice changes nothing. */
  lemma TrimmedProperties(s: string)
    ensures LeadingSpaces(s) + |Trimmed(s)| <= |s|
    ensures Trimmed(s) == s[LeadingSpaces(s)..LeadingSpaces(s) + |Trimmed(s)|]
    ensures Trimmed(s) == [] || (!IsSpace(Trimmed(s)[0]) && !IsSpace(Trimmed(s)[|Trimmed(s)| - 1]))
    ensures Trimmed(s) == [] <==> AllSpace(s)
    ensures Trimmed(Trimmed(s)) == Trimmed(s)
  {
    TrimmedIsSlice(s);
    TrimmedEmptyIff(s);
    var r := Trimmed(s);
    if r != [] {
      TrimRightShape(TrimLeft(s));
      assert r[0] == TrimLeft(s)[0];
    }
    assert r[..0] == [] && r[|r|..] == [] && r[0..|r|] == r;
    TrimmedAt(r, 0, |r|);
  }

  /** Whitespace in front of a string does not survive trimming. */
  lemma TrimmedSkipsLeading(ws: string, x: string)
    requires AllSpace(ws)
    ensures Trimmed(ws + x) == Trimmed(x)
  {
    var s := ws + x;
    var lx := TrimLeft(x);
    var lo := |s| - |lx|;
    TrimLeftShape(x);
    assert s[lo..] == lx;
    assert AllSpace(s[..lo]) by {
      forall k | 0 <= k < lo ensures IsSpace(s[..lo][k]) {
        if k < |ws| { assert s[k] == ws[k]; } else { assert s[k] == x[..|x| - |lx|][k - |ws|]; }
      }
    }
    TrimLeftAt(s, lo);
  }

  /** trim_whitespace, walking a start index forward and an end index back;
      the NUL it writes after the last kept character is represented by the
      returned end index `hi`. */
  method TrimWhitespace(s: string) returns (lo: nat, hi: nat)
    ensures lo <= hi <= |s|
    ensures s[lo..hi] == Trimmed(s)
    ensures AllSpace(s[..lo]) && AllSpace(s[hi..])
    ensures lo < hi ==> !IsSpace(s[lo]) && !IsSpace(s[hi - 1])
  {
    lo := 0;
    while lo < |s| && IsSpace(s[lo])
      invariant lo <= |s| && AllSpace(s[..lo])
    {
      assert s[..lo + 1] == s[..lo] + [s[lo]];
      lo := lo + 1;
    }
    if lo == |s| {
      hi := lo;
      TrimmedAt(s, lo, hi);
      return;
    }
    var end := |s| - 1;
    while end > lo && IsSpace(s[end])
      invariant lo <= end < |s| && AllSpace(s[end + 1..])
    {
      assert s[end..] == [s[end]] + s[end + 1..];
      end := end - 1;
    }
    hi := end + 1;
    TrimmedAt(s, lo, hi);
  }

  /** Length of the longest prefix of `s` free of delimiters. */
  function RunLen(s: string, delims: set<char>): (n: nat)
    ensures n <= |s|
    ensures forall k :: 0 <= k < n ==> s[k] !in delims
    ensures n == |s| || s[n] in delims
  {
    if s == [] || s[0] in delims then 0 else 1 + RunLen(s[1..], delims)
  }

  /** `line[strcspn(line, "\n")] = '\0'`: the line up to its first newline. */
  function CutAtNewline(line: string): (r: string)
    ensures |r| <= |line| && r == line[..|r|]
    ensures '\n' !in r
    ensures |r| < |line| ==> line[|r|] == '\n'
  {
    line[..RunLen(line, {'\n'})]
  }

  /** The tokens strtok_r hands out one call at a time: the maximal
      delimiter-free runs of `s`, in order. */
  function Fields(s: string, delims: set<char>): seq<string>
    decreases |s|
  {
    if s == [] then []
    else if s[0] in delims then Fields(s[1..], delims)
    else
      var n := RunLen(s, delims);
      [s[..n]] + Fields(s[n..], delims)
  }

  predicate NoDelim(w: string, delims: set<char>)
  {
    forall j :: 0 <= j < |w| ==> w[j] !in delims
  }

  /** Words as strtok_r returns them: non-empty and free of delimiters. */
  predicate AreFields(ws: seq<string>, delims: set<char>)
  {
    forall k :: 0 <= k < |ws| ==> ws[k] != [] && NoDelim(ws[k], delims)
  }

  lemma {:induction false} FieldsShape(s: string, delims: set<char>)
    ensures AreFields(Fields(s, delims), delims)
    decreases |s|
  {
    if s != [] {
      if s[0] in delims {
        FieldsShape(s[1..], delims);
      } else {
        var n := RunLen(s, delims);
        FieldsShape(s[n..], delims);
        var r := Fields(s[n..], delims);
        assert Fields(s, delims) == [s[..n]] + r;
        assert NoDelim(s[..n], delims);
      }
    }
  }

  lemma {:induction false} FieldsSkipDelims(s: string, p: nat, delims: set<char>)
    requires p <= |s|
    requires forall k :: 0 <= k < p ==> s[k] in delims
    ensures Fields(s, delims) == Fields(s[p..], delims)
  {
    if p > 0 {
      FieldsSkipDelims(s[1..], p - 1, delims);
      assert s[1..][p - 1..] == s[p..];
    }
  }

  lemma {:induction false} RunLenAt(s: string, q: nat, delims: set<char>)
    requires q <= |s|
    requires forall k :: 0 <= k < q ==> s[k] !in delims
    requires q == |s| || s[q] in delims
    ensures RunLen(s, delims) == q
  {
    if q > 0 {
      RunLenAt(s[1..], q - 1, delims);
    }
  }

  lemma {:induction false} RunLenPast(x: string, r: string, delims: set<char>)
    requires r != [] && r[0] in delims
    ensures RunLen(x + r, delims) == RunLen(x, delims)
  {
    var m := RunLen(x, delims);
    assert forall k :: 0 <= k < m ==> (x + r)[k] == x[k];
    assert (x + r)[m] == if m < |x| then x[m] else r[0];
    RunLenAt(x + r, m, delims);
  }

  /** A delimiter separates fields: whatever lies on either side of it is
      split on its own, so a run of delimiters yields no empty field. */
  lemma {:induction false} FieldsSplit(x: string, d: char, y: string, delims: set<char>)
    requires d in delims
    ensures Fields(x + [d] + y, delims) == Fields(x, delims) + Fields(y, delims)
    decreases |x|
  {
    var s := x + [d] + y;
    if x == [] {
      assert s[1..] == y;
    } else if x[0] in delims {
      assert s[1..] == x[1..] + [d] + y;
      FieldsSplit(x[1..], d, y, delims);
    } else {
      var m := RunLen(x, delims);
      RunLenPast(x, [d] + y, delims);
      assert s == x + ([d] + y);
      assert s[..m] == x[..m];
      if m < |x| {
        assert s[m..] == x[m..] + [d] + y;
        FieldsSplit(x[m..], d, y, delims);
      } else {
        assert x[..m] == x && x[m..] == [];
        assert s[m..] == [d] + y && s[m..][1..] == y;
      }
    }
  }

  lemma FieldsRunFirst(w: string, rest: string, delims: set<char>)
    requires forall k :: 0 <= k < |w| ==> w[k] !in delims
    requires rest == [] || rest[0] in delims
    ensures Fields(w + rest, delims) == (if w == [] then [] else [w]) + Fields(rest, delims)
  {
    if w != [] {
      RunLenAt(w + rest, |w|, delims);
      assert (w + rest)[..|w|] == w && (w + rest)[|w|..] == rest;
    } else {
      assert w + rest == rest;
    }
  }

  /** A delimiter-free run `w` that follows a delimiter (or the start) and
      is followed by a delimiter (or the end) is one field of its own. */
  lemma FieldsAround(pre: string, w: string, rest: string, delims: set<char>)
    requires pre == [] || pre[|pre| - 1] in delims
    requires forall k :: 0 <= k < |w| ==> w[k] !in delims
    requires rest == [] || rest[0] in delims
    ensures Fields(pre + w + rest, delims) ==
            Fields(pre, delims) + (if w == [] then [] else [w]) + Fields(rest, delims)
  {
    var run := if w == [] then [] else [w];
    if pre == [] {
      assert pre + w + rest == w + rest;
      FieldsRunFirst(w, rest, delims);
    } else {
      calc {
        Fields(pre + w + rest, delims);
      == { assert pre + w + rest == pre + (w + rest); }
        Fields(pre + (w + rest), delims);
      == { FieldsAfterPre(pre, w + rest, delims); }
        Fields(pre, delims) + Fields(w + rest, delims);
      == { FieldsRunFirst(w, rest, delims); }
        Fields(pre, delims) + (run + Fields(rest, delims));
      }
    }
  }

  /** A string that ends in a delimiter contributes its own fields, then
      the fields of what follows it start afresh. */
  lemma FieldsAfterPre(pre: string, r: string, delims: set<char>)
    requires pre != [] && pre[|pre| - 1] in delims
    ensures Fields(pre + r, delims) == Fields(pre, delims) + Fields(r, delims)
  {
    var p, d := pre[..|pre| - 1], pre[|pre| - 1];
    FieldsBeforeDelim(pre, delims);
    FieldsAfterDelim(p, d, r, delims);
    assert pre + r == p + [d] + r;
  }

  lemma FieldsAfterDelim(p: string, d: char, r: string, delims: set<char>)
    requires d in delims
    ensures Fields(p + [d] + r, delims) == Fields(p + [d], delims) + Fields(r, delims)
  {
    FieldsSplit(p, d, r, delims);
    FieldsSplit(p, d, [], delims);
    assert p + [d] + [] == p + [d];
  }

  /** A delimiter at the end of a string adds no field. */
  lemma FieldsBeforeDelim(pre: string, delims: set<char>)
    requires pre != [] && pre[|pre| - 1] in delims
    ensures pre == pre[..|pre| - 1] + [pre[|pre| - 1]]
    ensures Fields(pre, delims) == Fields(pre[..|pre| - 1], delims)
  {
    var p', d := pre[..|pre| - 1], pre[|pre| - 1];
    assert pre == p' + [d] + [];
    FieldsSplit(p', d, [], delims);
  }

  /** A field that starts after a run of delimiters and ends at a delimiter
      or at the end of the string is the next one Fields produces. */
  lemma FieldAt(s: string, save: nat, p: nat, q: nat, delims: set<char>)
    requires save <= p < q <= |s|
    requires forall k :: save <= k < p ==> s[k] in delims
    requires forall k :: p <= k < q ==> s[k] !in delims
    requires q == |s| || s[q] in delims
    ensures Fields(s[save..], delims) == [s[p..q]] + Fields(s[q..], delims)
  {
    SkipTo(s, save, p, delims);
    var t := s[p..];
    assert forall k :: 0 <= k < q - p ==> t[k] == s[p + k];
    RunLenAt(t, q - p, delims);
    assert t[..q - p] == s[p..q];
    assert t[q - p..] == s[q..];
  }

  /** Delimiters from `save` up to `p` add no field. */
  lemma SkipTo(s: string, save: nat, p: nat, delims: set<char>)
    requires save <= p <= |s|
    requires forall k :: save <= k < p ==> s[k] in delims
    ensures Fields(s[save..], delims) == Fields(s[p..], delims)
  {
    var u := s[save..];
    assert forall k :: 0 <= k < p - save ==> u[k] == s[save + k];
    FieldsSkipDelims(u, p - save, delims);
    assert u[p - save..] == s[p..];
  }

  /** Nothing but delimiters from `save` on: no field is left. */
  lemma OnlyDelims(s: string, save: nat, delims: set<char>)
    requires save <= |s| && forall k :: save <= k < |s| ==> s[k] in delims
    ensures Fields(s[save..], delims) == []
  {
    var t := s[save..];
    assert forall k :: 0 <= k < |t| ==> t[k] == s[save + k];
    FieldsSkipDelims(t, |t|, delims);
    assert t[|t|..] == [];
  }

  /** The delimiter that ends a token adds no field. */
  lemma SkipOneDelim(s: string, q: nat, delims: set<char>)
    requires q < |s| && s[q] in delims
    ensures Fields(s[q..], delims) == Fields(s[q + 1..], delims)
  {
    FieldsSkipDelims(s[q..], 1, delims);
    assert s[q..][1..] == s[q + 1..];
  }

  /** The first loop of strtok_r: skip the delimiters at `from`. */
  method SkipDelims(s: string, from: nat, delims: set<char>) returns (p: nat)
    requires from <= |s|
    ensures from <= p <= |s| && (p == |s| || s[p] !in delims)
    ensures forall k :: from <= k < p ==> s[k] in delims
  {
    p := from;
    while p < |s| && s[p] in delims
      invariant from <= p <= |s|
      invariant forall k :: from <= k < p ==> s[k] in delims
    {
      p := p + 1;
    }
  }

  /** The second loop of strtok_r: find the end of the token at `p`. */
  method TokenEnd(s: string, p: nat, delims: set<char>) returns (q: nat)
    requires p <= |s|
    ensures p <= q <= |s| && (q == |s| || s[q] in delims)
    ensures forall k :: p <= k < q ==> s[k] !in delims
  {
    q := p;
    while q < |s| && s[q] !in delims
      invariant p <= q <= |s|
      invariant forall k :: p <= k < q ==> s[k] !in delims
    {
      q := q + 1;
    }
  }

  /** strtok_r with its saved position modelled as an index into `s`: after
      skipping delimiters it returns the next token `s[start..end]`, and the
      index at which the following call resumes. */
  method StrTokR(s: string, save: nat, delims: set<char>) returns (found: bool, start: nat, end: nat, next: nat)
    requires save <= |s|
    ensures !found ==> next == |s| && Fields(s[save..], delims) == []
    ensures found ==> save <= start < end <= next <= |s|
    ensures found ==> Fields(s[save..], delims) == [s[start..end]] + Fields(s[next..], delims)
  {
    var p := SkipDelims(s, save, delims);
    if p == |s| {
      OnlyDelims(s, save, delims);
      found, start, end, next := false, p, p, p;
      return;
    }
    var q := TokenEnd(s, p, delims);
    FieldAt(s, save, p, q, delims);
    found, start, end := true, p, q;
    if q < |s| {
      next := q + 1;
      SkipOneDelim(s, q, delims);
    } else {
      next := q;
    }
  }
}
