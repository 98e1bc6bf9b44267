/** The SQL-facing vector front end: parsing vector text and blobs, parsing the
    `FLOAT32(N)` column type, turning a parsed vector back into an SQL value, and the
    argument handling of the `vector`, `vector_extract` and `vector_distance_cos`
    functions. */
module Vector {
  import opened Common
  import opened Text
  import opened VectorTypes
  import opened VectorF32

  /** Longest element text the parser buffers. */
  const MAX_FLOAT_CHAR_SZ: nat := 1024

  /** The number conversion `sqlite3AtoF`: the bit pattern of the float an element text
      denotes, or `None` when the text is not a number. */
  type AtoF = string -> Option<bv32>

  /** `sqlite3Isspace`: space, tab, newline, vertical tab, form feed, carriage return. */
  predicate IsSpace(c: char)
  {
    c == ' ' || '\t' <= c <= '\r'
  }

  predicate AllSpace(t: string)
  {
    forall k :: 0 <= k < |t| ==> IsSpace(t[k])
  }

  /** The character a pointer into a C string sees at position `i`: past the end of the
      text it sees the terminating NUL. */
  function At(s: string, i: nat): char
  {
    if i < |s| then s[i] else '\0'
  }

  /** Index of the first `c` in `s`, or `|s|` when there is none. */
  function IndexOf(s: string, c: char): (r: nat)
    ensures r <= |s| && (r < |s| ==> s[r] == c)
    ensures forall k :: 0 <= k < r ==> s[k] != c
    decreases |s|
  {
    if |s| == 0 then 0
    else if s[0] == c then 0
    else
      var r := 1 + IndexOf(s[1..], c);
      assert forall k :: 1 <= k < r ==> s[k] == s[1..][k - 1];
      r
  }

  /** The text a C routine sees: everything before the first NUL. */
  function CStr(s: string): (t: string)
    ensures '\0' !in t
  {
    s[..IndexOf(s, '\0')]
  }

  lemma AtCStr(s: string, i: nat)
    requires i <= |CStr(s)|
    ensures i < |CStr(s)| ==> At(s, i) == CStr(s)[i]
    ensures i == |CStr(s)| ==> At(s, i) == '\0'
  {
  }

  /** The first index from `i` on that does not hold whitespace, or `|t|`. */
  function SkipSpaces(t: string, i: nat): (r: nat)
    requires i <= |t|
    ensures i <= r <= |t| && (r < |t| ==> !IsSpace(t[r]))
    ensures forall k :: i <= k < r ==> IsSpace(t[k])
    decreases |t| - i
  {
    if i == |t| || !IsSpace(t[i]) then i else SkipSpaces(t, i + 1)
  }

  /** The text with every whitespace character removed. */
  function Clean(t: string): string
    decreases |t|
  {
    if |t| == 0 then []
    else Clean(t[..|t| - 1]) + (if IsSpace(t[|t| - 1]) then [] else [t[|t| - 1]])
  }

  lemma {:induction false} CleanAppend(a: string, b: string)
    ensures Clean(a + b) == Clean(a) + Clean(b)
    decreases |b|
  {
    if |b| == 0 {
      assert a + b == a;
    } else {
      assert (a + b)[..|a + b| - 1] == a + b[..|b| - 1];
      CleanAppend(a, b[..|b| - 1]);
    }
  }

  lemma {:induction false} CleanNoSpace(t: string)
    requires forall k :: 0 <= k < |t| ==> !IsSpace(t[k])
    ensures Clean(t) == t
    decreases |t|
  {
    if |t| > 0 {
      CleanNoSpace(t[..|t| - 1]);
    }
  }

  /** Why vector text is refused. */
  datatype TextError =
    | NotText
    | NoOpenBracket
    | TokenTooLong
    | InvalidNumber
    | TooManyElements
    | MissingClose
    | ExtraData

  /** The check applied to the k-th element text once it is complete (or, for length,
      while it is being collected). */
  function TokenCheck(tok: string, k: nat, atof: AtoF): Option<TextError>
  {
    if |tok| > MAX_FLOAT_CHAR_SZ then Some(TokenTooLong)
    else if atof(tok).None? then Some(InvalidNumber)
    else if k >= MAX_VECTOR_SZ then Some(TooManyElements)
    else None
  }

  /** Every element text passes its check. */
  predicate TokensOk(tokens: seq<string>, atof: AtoF)
  {
    forall k :: 0 <= k < |tokens| ==> TokenCheck(tokens[k], k, atof).None?
  }

  /** The failure of the first element text, in order, that fails its check. */
  function FirstFailure(tokens: seq<string>, atof: AtoF): Option<TextError>
    decreases |tokens|
  {
    if |tokens| == 0 then None
    else
      var f := FirstFailure(tokens[..|tokens| - 1], atof);
      if f.Some? then f else TokenCheck(tokens[|tokens| - 1], |tokens| - 1, atof)
  }

  /** There is no first failure exactly when every element text passes. */
  lemma {:induction false} FirstFailureNone(tokens: seq<string>, atof: AtoF)
    ensures FirstFailure(tokens, atof).None? <==> TokensOk(tokens, atof)
    decreases |tokens|
  {
    if |tokens| > 0 {
      var init := tokens[..|tokens| - 1];
      FirstFailureNone(init, atof);
      assert forall k :: 0 <= k < |init| ==> init[k] == tokens[k];
    }
  }

  /** When the texts before index k pass and text k fails, that failure is the first. */
  lemma {:induction false} FirstFailureAt(tokens: seq<string>, k: nat, atof: AtoF)
    requires k < |tokens| && TokensOk(tokens[..k], atof) && TokenCheck(tokens[k], k, atof).Some?
    ensures FirstFailure(tokens, atof) == TokenCheck(tokens[k], k, atof)
    decreases |tokens|
  {
    var init := tokens[..|tokens| - 1];
    FirstFailureNone(tokens[..k], atof);
    if k < |tokens| - 1 {
      assert init[..k] == tokens[..k];
      FirstFailureAt(init, k, atof);
    } else {
      assert init == tokens[..k];
    }
  }

  /** The element values of texts that all pass. */
  function Values(tokens: seq<string>, atof: AtoF): (r: seq<bv32>)
    requires TokensOk(tokens, atof)
    ensures |r| == |tokens|
  {
    seq(|tokens|, k requires 0 <= k < |tokens| => atof(tokens[k]).value)
  }

  /** The element texts inside the brackets: the text up to the first `]` with
      whitespace removed, split at commas. */
  function BodyTokens(body: string): seq<string>
  {
    Split(Clean(body[..IndexOf(body, ']')]), ',')
  }

  /** What the text after the opening bracket denotes. When a `]` closes the list: no
      element texts at all is the empty vector, otherwise every element text must pass
      its check; only whitespace may follow the `]`. Without a `]`, the texts ended by
      commas are checked, then the unfinished last one for length. */
  function BodySpec(body: string, atof: AtoF): Result<seq<bv32>, TextError>
  {
    var close := IndexOf(body, ']');
    var inner := Clean(body[..close]);
    var tokens := BodyTokens(body);
    if close == |body| then
      var f := FirstFailure(tokens[..|tokens| - 1], atof);
      if f.Some? then Err(f.value)
      else if |tokens[|tokens| - 1]| > MAX_FLOAT_CHAR_SZ then Err(TokenTooLong)
      else Err(MissingClose)
    else
      var f := if inner == [] then None else FirstFailure(tokens, atof);
      if f.Some? then Err(f.value)
      else if !AllSpace(body[close + 1..]) then Err(ExtraData)
      else if inner == [] then Ok([])
      else
        FirstFailureNone(tokens, atof);
        Ok(Values(tokens, atof))
  }

  /** What a value denotes as vector text: after optional whitespace an opening bracket
      must come, and the rest is read by `BodySpec`. */
  function ParseTextSpec(arg: SqlValue, atof: AtoF): Result<seq<bv32>, TextError>
  {
    if !arg.Text? then Err(NotText)
    else
      var t := CStr(arg.s);
      var open := SkipSpaces(t, 0);
      if open == |t| || t[open] != '[' then Err(NoOpenBracket)
      else BodySpec(t[open + 1..], atof)
  }

  /** A failing element text decides the outcome, provided it is the first to fail and
      the list is not the empty one; an unfinished last text can only fail for length. */
  lemma BodyFailsAt(body: string, k: nat, atof: AtoF)
    requires k < |BodyTokens(body)|
    requires TokensOk(BodyTokens(body)[..k], atof)
    requires TokenCheck(BodyTokens(body)[k], k, atof).Some?
    requires IndexOf(body, ']') < |body| ==> Clean(body[..IndexOf(body, ']')]) != []
    requires IndexOf(body, ']') == |body| && k == |BodyTokens(body)| - 1 ==>
      |BodyTokens(body)[k]| > MAX_FLOAT_CHAR_SZ
    ensures BodySpec(body, atof) == Err(TokenCheck(BodyTokens(body)[k], k, atof).value)
  {
    var tokens := BodyTokens(body);
    if IndexOf(body, ']') == |body| {
      var terminated := tokens[..|tokens| - 1];
      if k < |tokens| - 1 {
        assert terminated[..k] == tokens[..k];
        FirstFailureAt(terminated, k, atof);
      } else {
        assert terminated == tokens[..k];
        FirstFailureNone(terminated, atof);
      }
    } else {
      FirstFailureAt(tokens, k, atof);
    }
  }

  /** Reading the body up to position q (not past its first `]`) fixes the element
      texts before the current one, and the current one starts with what was collected. */
  lemma TokensExtend(body: string, q: nat, done: seq<string>, cur: string)
    requires q <= IndexOf(body, ']')
    requires Split(Clean(body[..q]), ',') == done + [cur]
    ensures |BodyTokens(body)| > |done| && BodyTokens(body)[..|done|] == done
    ensures |BodyTokens(body)[|done|]| >= |cur| && BodyTokens(body)[|done|][..|cur|] == cur
  {
    TokensGlue(body, q);
    GluePrefix(done, cur, Split(Clean(body[q..IndexOf(body, ']')]), ','));
  }

  /** The element texts of the body are those read up to q glued to those of the rest. */
  lemma TokensGlue(body: string, q: nat)
    requires q <= IndexOf(body, ']')
    ensures BodyTokens(body) ==
      Glue(Split(Clean(body[..q]), ','), Split(Clean(body[q..IndexOf(body, ']')]), ','))
  {
    var close := IndexOf(body, ']');
    var x, y := body[..q], body[q..close];
    assert body[..close] == x + y;
    CleanAppend(x, y);
    SplitConcat(Clean(x), Clean(y), ',');
  }

  lemma GluePrefix(done: seq<string>, cur: string, sy: seq<string>)
    requires |sy| >= 1
    ensures var g := Glue(done + [cur], sy);
      |g| > |done| && g[..|done|] == done && |g[|done|]| >= |cur| && g[|done|][..|cur|] == cur
  {
    var g := Glue(done + [cur], sy);
    assert g == done + [cur + sy[0]] + sy[1..];
    assert g[|done|] == cur + sy[0];
  }

  /** Reading one more character of the body before its `]`: whitespace changes
      nothing, a comma ends the current element text, anything else extends it. */
  lemma StepChar(body: string, q: nat, done: seq<string>, cur: string)
    requires q < |body| && Split(Clean(body[..q]), ',') == done + [cur]
    ensures IsSpace(body[q]) ==> Split(Clean(body[..q + 1]), ',') == done + [cur]
    ensures !IsSpace(body[q]) && body[q] == ',' ==>
      Split(Clean(body[..q + 1]), ',') == (done + [cur]) + [[]]
    ensures !IsSpace(body[q]) && body[q] != ',' ==>
      Split(Clean(body[..q + 1]), ',') == done + [cur + [body[q]]]
  {
    var c := body[q];
    assert body[..q + 1] == body[..q] + [c];
    CleanAppend(body[..q], [c]);
    assert Clean([c]) == if IsSpace(c) then [] else [c];
    if IsSpace(c) {
      assert Clean(body[..q]) + [] == Clean(body[..q]);
    } else if c == ',' {
      SplitAfterSeparator(Clean(body[..q]), ',');
    } else {
      SplitAppendPlain(Clean(body[..q]), [c], ',');
    }
  }

  /** An element text that grows past `MAX_FLOAT_CHAR_SZ` before the `]` decides the
      outcome once the texts before it passed. */
  lemma FailTooLong(body: string, q: nat, done: seq<string>, cur: string, atof: AtoF)
    requires q <= IndexOf(body, ']') && Split(Clean(body[..q]), ',') == done + [cur]
    requires TokensOk(done, atof) && |cur| > MAX_FLOAT_CHAR_SZ
    ensures BodySpec(body, atof) == Err(TokenTooLong)
  {
    TokensExtend(body, q, done, cur);
    var tokens := BodyTokens(body);
    assert |tokens[|done|]| > MAX_FLOAT_CHAR_SZ;
    SplitSingleEmpty(Clean(body[..IndexOf(body, ']')]), ',');
    BodyFailsAt(body, |done|, atof);
  }

  /** A comma before the `]` ends the current element text: it is the next
      element text of the body, and the list is not the empty one. */
  lemma CommaEndsToken(body: string, q: nat, done: seq<string>, tok: string)
    requires q < IndexOf(body, ']') && body[q] == ','
    requires Split(Clean(body[..q]), ',') == done + [tok]
    ensures |BodyTokens(body)| > |done| + 1
    ensures BodyTokens(body)[..|done|] == done && BodyTokens(body)[|done|] == tok
    ensures Clean(body[..IndexOf(body, ']')]) != []
  {
    StepChar(body, q, done, tok);
    TokensExtend(body, q + 1, done + [tok], []);
    var tokens := BodyTokens(body);
    assert tokens[..|done| + 1] == done + [tok];
    assert tokens[..|done|] == tokens[..|done| + 1][..|done|];
    assert tokens[|done|] == tokens[..|done| + 1][|done|] == (done + [tok])[|done|];
    var inner := Clean(body[..IndexOf(body, ']')]);
    assert tokens == Split(inner, ',') && |tokens| > 1;
    SplitSingleEmpty(inner, ',');
    assert |inner| > 0;
  }

  /** An element text ended by a comma that fails its check decides the outcome once the
      texts before it passed. */
  lemma FailAtComma(body: string, q: nat, done: seq<string>, tok: string, atof: AtoF)
    requires q < IndexOf(body, ']') && body[q] == ','
    requires Split(Clean(body[..q]), ',') == done + [tok]
    requires TokensOk(done, atof) && TokenCheck(tok, |done|, atof).Some?
    ensures BodySpec(body, atof) == Err(TokenCheck(tok, |done|, atof).value)
  {
    CommaEndsToken(body, q, done, tok);
    BodyFailsAt(body, |done|, atof);
  }

  /** The element texts read when the `]` is reached are all of them. */
  lemma TokensAtClose(body: string, q: nat, tokens: seq<string>)
    requires q == IndexOf(body, ']') && Split(Clean(body[..q]), ',') == tokens
    ensures BodyTokens(body) == tokens
    ensures Clean(body[..q]) == [] <==> tokens == [[]]
  {
    SplitSingleEmpty(Clean(body[..q]), ',');
  }

  /** The last element text, ended by `]`, that fails its check decides the outcome. */
  lemma FailAtClose(body: string, q: nat, done: seq<string>, tok: string, atof: AtoF)
    requires q == IndexOf(body, ']') < |body|
    requires Split(Clean(body[..q]), ',') == done + [tok] && done + [tok] != [[]]
    requires TokensOk(done, atof) && TokenCheck(tok, |done|, atof).Some?
    ensures BodySpec(body, atof) == Err(TokenCheck(tok, |done|, atof).value)
  {
    TokensAtClose(body, q, done + [tok]);
    assert (done + [tok])[..|done|] == done;
    BodyFailsAt(body, |done|, atof);
  }

  /** Reaching the end of the text without a `]` leaves the list unclosed. */
  lemma FailUnclosed(body: string, done: seq<string>, cur: string, atof: AtoF)
    requires IndexOf(body, ']') == |body| && Split(Clean(body), ',') == done + [cur]
    requires TokensOk(done, atof) && |cur| <= MAX_FLOAT_CHAR_SZ
    ensures BodySpec(body, atof) == Err(MissingClose)
  {
    assert body[..|body|] == body;
    assert (done + [cur])[..|done|] == done;
    FirstFailureNone(done, atof);
  }

  /** Once the `]` is reached with every element text passing, only what follows the
      `]` is left to check. */
  lemma Closed(body: string, q: nat, tokens: seq<string>, atof: AtoF)
    requires q == IndexOf(body, ']') < |body| && Split(Clean(body[..q]), ',') == tokens
    requires tokens == [[]] || TokensOk(tokens, atof)
    ensures tokens == [[]] ==>
      BodySpec(body, atof) == if AllSpace(body[q + 1..]) then Ok([]) else Err(ExtraData)
    ensures tokens != [[]] ==>
      BodySpec(body, atof) == if AllSpace(body[q + 1..]) then Ok(Values(tokens, atof)) else Err(ExtraData)
  {
    TokensAtClose(body, q, tokens);
    if tokens == [[]] {
      ClosedEmpty(body, q, atof);
    } else {
      FirstFailureNone(tokens, atof);
    }
  }

  /** A `]` with only whitespace before it closes the empty list. */
  lemma ClosedEmpty(body: string, q: nat, atof: AtoF)
    requires q == IndexOf(body, ']') < |body| && Clean(body[..q]) == []
    ensures BodySpec(body, atof) == if AllSpace(body[q + 1..]) then Ok([]) else Err(ExtraData)
  {
  }

  /** An element text ended by `,` or by a `]` that closes a non-empty list, when it
      fails its check, decides the outcome once the texts before it passed. */
  lemma FailAtEnd(body: string, q: nat, done: seq<string>, tok: string, atof: AtoF)
    requires q <= IndexOf(body, ']') && q < |body| && (body[q] == ',' || body[q] == ']')
    requires body[q] == ']' ==> |done| > 0 || |tok| > 0
    requires Split(Clean(body[..q]), ',') == done + [tok]
    requires TokensOk(done, atof) && TokenCheck(tok, |done|, atof).Some?
    ensures BodySpec(body, atof) == Err(TokenCheck(tok, |done|, atof).value)
  {
    BeforeClose(body, q);
    if body[q] == ',' {
      FailAtComma(body, q, done, tok, atof);
    } else {
      assert |done| == 0 ==> (done + [tok])[0] == tok;
      FailAtClose(body, q, done, tok, atof);
    }
  }

  /** One more passing element text appends its value. */
  lemma ValuesSnoc(done: seq<string>, tok: string, atof: AtoF)
    requires TokensOk(done, atof) && TokenCheck(tok, |done|, atof).None?
    ensures TokensOk(done + [tok], atof)
    ensures Values(done + [tok], atof) == Values(done, atof) + [atof(tok).value]
  {
    assert forall k :: 0 <= k < |done| ==> (done + [tok])[k] == done[k];
  }

  /** Positions before the first `]` hold other characters. */
  lemma BeforeClose(body: string, q: nat)
    requires q <= IndexOf(body, ']') && q < |body|
    ensures body[q] != ']' ==> q < IndexOf(body, ']')
    ensures body[q] == ']' ==> q == IndexOf(body, ']')
  {
  }

  /** Whitespace runs from i up to a non-whitespace character or the end exactly when
      skipping from i stops there. */
  lemma {:induction false} SkipSpacesAt(t: string, i: nat, q: nat)
    requires i <= q <= |t| && forall k :: i <= k < q ==> IsSpace(t[k])
    requires q < |t| ==> !IsSpace(t[q])
    ensures SkipSpaces(t, i) == q
    decreases q - i
  {
    if i < q {
      SkipSpacesAt(t, i + 1, q);
    }
  }

  /** `sqlite3Isspace` loop: advances over whitespace. */
  method SkipSpace(s: string, p: nat) returns (q: nat)
    requires p <= |CStr(s)|
    ensures q == SkipSpaces(CStr(s), p)
  {
    var t := CStr(s);
    q := p;
    AtCStr(s, q);
    while IsSpace(At(s, q))
      invariant p <= q <= |t| && forall k :: p <= k < q ==> IsSpace(t[k])
      invariant q < |t| ==> At(s, q) == t[q]
      invariant q == |t| ==> At(s, q) == '\0'
      decreases |t| - q
    {
      q := q + 1;
      AtCStr(s, q);
    }
    SkipSpacesAt(t, p, q);
  }

  /** Only whitespace from `p` to the end of the text exactly when skipping whitespace
      from `p` reaches the terminating NUL. */
  lemma TrailingSpace(t: string, p: nat)
    requires p <= |t|
    ensures AllSpace(t[p..]) <==> SkipSpaces(t, p) == |t|
  {
    var r := SkipSpaces(t, p);
    if r < |t| {
      assert t[p..][r - p] == t[r];
    }
  }

  /** The character seen at position p of the text, in terms of the body that starts
      at j. */
  lemma AtBody(s: string, j: nat, p: nat)
    requires j <= p <= |CStr(s)|
    ensures p < |CStr(s)| ==> At(s, p) == CStr(s)[j..][p - j]
    ensures p == |CStr(s)| ==> At(s, p) == '\0'
  {
    AtCStr(s, p);
  }

  /** Appends a character to the element text being collected. */
  method AppendChar(elBuf: array<char>, bufidx: nat, c: char) returns (n: nat)
    requires bufidx < elBuf.Length
    modifies elBuf
    ensures n == bufidx + 1 && elBuf[..n] == old(elBuf[..bufidx]) + [c]
  {
    elBuf[bufidx] := c;
    n := bufidx + 1;
  }

  /** Stores the value of the element text just completed after those before it. */
  method StoreElement(elems: array<bv32>, vecidx: nat, x: bv32, ghost done: seq<string>,
                      ghost tok: string, atof: AtoF)
    requires TokensOk(done, atof) && TokenCheck(tok, |done|, atof).None?
    requires vecidx == |done| < elems.Length && elems[..vecidx] == Values(done, atof)
    requires atof(tok) == Some(x)
    modifies elems
    ensures TokensOk(done + [tok], atof)
    ensures elems[..vecidx + 1] == Values(done + [tok], atof)
  {
    elems[vecidx] := x;
    assert elems[..vecidx + 1] == old(elems[..vecidx]) + [x];
    ValuesSnoc(done, tok, atof);
  }

  /** What reading one character of the list did: the list goes on, the `]` closed it,
      or the text is refused. */
  datatype Reading = More | AtClose | Refused(reason: TextError)

  /** Elements read so far: the element texts before the current one all passed and
      their values are stored in order. */
  ghost predicate Stored(elems: array<bv32>, vecidx: nat, done: seq<string>, atof: AtoF)
    reads elems
  {
    vecidx == |done| && TokensOk(done, atof) && vecidx <= MAX_VECTOR_SZ <= elems.Length &&
    elems[..vecidx] == Values(done, atof)
  }

  /** What one turn of the parsing loop at position p leaves behind: the list
      goes on with the element texts read so far stored, the `]` closed it (an
      empty list, or one whose texts are all stored), or the text is refused
      for the reason `BodySpec` gives. */
  ghost predicate Advanced(body: string, p: nat, atof: AtoF, elBuf: array<char>, elems: array<bv32>,
                           r: Reading, bufidx': nat, vecidx': nat, done': seq<string>)
    requires p < |body|
    reads elBuf, elems
  {
    && (r.More? ==>
      p + 1 <= IndexOf(body, ']') && bufidx' <= MAX_FLOAT_CHAR_SZ && bufidx' <= elBuf.Length &&
      Split(Clean(body[..p + 1]), ',') == done' + [elBuf[..bufidx']] &&
      Stored(elems, vecidx', done', atof))
    && (r.AtClose? ==>
      p == IndexOf(body, ']') && Split(Clean(body[..p]), ',') == done' &&
      ((done' == [[]] && vecidx' == 0) || (done' != [[]] && Stored(elems, vecidx', done', atof))))
    && (r.Refused? ==> BodySpec(body, atof) == Err(r.reason))
  }

  /** One turn of the parsing loop of `vectorParseText`: the character at position p of
      the text after the `[` is skipped when it is whitespace, appended to the element
      text in `elBuf` when it is not `,` or `]`, and otherwise ends that element text,
      whose value is stored. */
  method ReadChar(body: string, p: nat, elBuf: array<char>, bufidx: nat, elems: array<bv32>,
                  vecidx: nat, atof: AtoF, ghost done: seq<string>)
    returns (r: Reading, bufidx': nat, vecidx': nat, ghost done': seq<string>)
    requires p < |body| && p <= IndexOf(body, ']')
    requires elBuf.Length == MAX_FLOAT_CHAR_SZ + 1 && bufidx <= MAX_FLOAT_CHAR_SZ
    requires Split(Clean(body[..p]), ',') == done + [elBuf[..bufidx]]
    requires Stored(elems, vecidx, done, atof)
    modifies elBuf, elems
    ensures Advanced(body, p, atof, elBuf, elems, r, bufidx', vecidx', done')
  {
    var c := body[p];
    if c == ',' || c == ']' {
      r, bufidx', vecidx', done' := EndElement(body, p, elBuf, bufidx, elems, vecidx, atof, done);
      return;
    }
    StepChar(body, p, done, elBuf[..bufidx]);
    BeforeClose(body, p);
    if IsSpace(c) {
      return More, bufidx, vecidx, done;
    }
    bufidx' := AppendChar(elBuf, bufidx, c);
    if bufidx' > MAX_FLOAT_CHAR_SZ {
      FailTooLong(body, p + 1, done, elBuf[..bufidx'], atof);
      return Refused(TokenTooLong), bufidx', vecidx, done;
    }
    return More, bufidx', vecidx, done;
  }

  /** The turn of the parsing loop at a `,` or `]`: the element text collected
      so far ends; an empty list closes at once, otherwise the text must read as
      a number and fit, and its value is stored. */
  method EndElement(body: string, p: nat, elBuf: array<char>, bufidx: nat, elems: array<bv32>,
                    vecidx: nat, atof: AtoF, ghost done: seq<string>)
    returns (r: Reading, bufidx': nat, vecidx': nat, ghost done': seq<string>)
    requires p < |body| && p <= IndexOf(body, ']') && (body[p] == ',' || body[p] == ']')
    requires elBuf.Length == MAX_FLOAT_CHAR_SZ + 1 && bufidx <= MAX_FLOAT_CHAR_SZ
    requires Split(Clean(body[..p]), ',') == done + [elBuf[..bufidx]]
    requires Stored(elems, vecidx, done, atof)
    modifies elems
    ensures Advanced(body, p, atof, elBuf, elems, r, bufidx', vecidx', done')
  {
    var c := body[p];
    ghost var cur := elBuf[..bufidx];
    StepChar(body, p, done, cur);
    BeforeClose(body, p);
    if c == ']' && vecidx == 0 && bufidx == 0 {
      return AtClose, bufidx, vecidx, [[]];
    }
    var el := atof(elBuf[..bufidx]);
    if el.None? || vecidx >= MAX_VECTOR_SZ {
      FailAtEnd(body, p, done, cur, atof);
      if el.None? {
        return Refused(InvalidNumber), bufidx, vecidx, done;
      }
      return Refused(TooManyElements), bufidx, vecidx, done;
    }
    StoreElement(elems, vecidx, el.value, done, cur, atof);
    done' := done + [cur];
    if c == ']' {
      assert |done| > 0 || |cur| > 0;
      assert |done| == 0 ==> done'[0] == cur;
      return AtClose, 0, vecidx + 1, done';
    }
    assert elBuf[..0] == [];
    return More, 0, vecidx + 1, done';
  }

  /** The parsing loop of `vectorParseText` over the text after the `[`. It stops at
      the first `]`, with the element texts read up to it, or with the reason the text is
      refused; the text ends where a C string would, at its end. */
  method ReadElements(body: string, elems: array<bv32>, atof: AtoF)
    returns (p: nat, vecidx: nat, err: Option<TextError>, ghost tokens: seq<string>)
    requires '\0' !in body && elems.Length >= MAX_VECTOR_SZ
    modifies elems
    ensures err.Some? ==> BodySpec(body, atof) == Err(err.value)
    ensures err.None? ==>
      p == IndexOf(body, ']') < |body| && Split(Clean(body[..p]), ',') == tokens &&
      ((tokens == [[]] && vecidx == 0) || (tokens != [[]] && Stored(elems, vecidx, tokens, atof)))
  {
    p := 0;
    var elBuf := new char[MAX_FLOAT_CHAR_SZ + 1];
    var bufidx: nat := 0;
    vecidx := 0;
    ghost var done: seq<string> := [];
    assert body[..0] == [];
    while At(body, p) != '\0'
      invariant p <= IndexOf(body, ']') && p <= |body|
      invariant elBuf.Length == MAX_FLOAT_CHAR_SZ + 1 && bufidx <= MAX_FLOAT_CHAR_SZ
      invariant Split(Clean(body[..p]), ',') == done + [elBuf[..bufidx]]
      invariant Stored(elems, vecidx, done, atof)
      decreases |body| - p
    {
      var r;
      r, bufidx, vecidx, done := ReadChar(body, p, elBuf, bufidx, elems, vecidx, atof, done);
      if r.Refused? {
        return p, vecidx, Some(r.reason), [];
      }
      if r.AtClose? {
        return p, vecidx, None, done;
      }
      p := p + 1;
    }
    assert body[..p] == body;
    FailUnclosed(body, done, elBuf[..bufidx], atof);
    return p, vecidx, Some(MissingClose), [];
  }

  /** The rest of `vectorParseText`, from just after the `[` at position j - 1: the
      elements read by the loop are the vector's when only whitespace follows the `]`. */
  method ParseBody(s: string, j: nat, v: Vector, atof: AtoF) returns (rc: int, err: Option<TextError>)
    requires 1 <= j <= |CStr(s)|
    requires v.data.Owned? && v.data.elems.Length >= MAX_VECTOR_SZ
    modifies v, v.data.elems
    ensures v.data == old(v.data) && v.vtype == old(v.vtype) && v.isStatic == old(v.isStatic)
    ensures BodySpec(CStr(s)[j..], atof).Err? ==>
      rc == -1 && err == Some(BodySpec(CStr(s)[j..], atof).error) && v.dims == old(v.dims)
    ensures BodySpec(CStr(s)[j..], atof).Ok? ==>
      err == None && rc == v.dims == |BodySpec(CStr(s)[j..], atof).value| &&
      Elements(v) == BodySpec(CStr(s)[j..], atof).value
  {
    ghost var t := CStr(s);
    var body := CStr(s)[j..];
    assert forall k :: 0 <= k < |body| ==> body[k] == t[j + k];
    var elems := v.data.elems;
    var q, vecidx, e, tokens := ReadElements(body, elems, atof);
    if e.Some? {
      return -1, e;
    }
    Closed(body, q, tokens, atof);
    var p := SkipSpace(s, j + q + 1);
    TrailingSpace(t, j + q + 1);
    assert body[q + 1..] == t[j + q + 1..];
    AtCStr(s, p);
    if At(s, p) != '\0' {
      return -1, Some(ExtraData);
    }
    assert p == |t|;
    v.dims := vecidx;
    assert Elements(v) == elems[..vecidx];
    rc, err := vecidx, None;
  }

  /** The text parser's outcome is decided at the first non-whitespace character:
      anything but `[` is refused, a `[` hands the rest to `BodySpec`. */
  lemma TextAtOpen(arg: SqlValue, p: nat, atof: AtoF)
    requires arg.Text? && p == SkipSpaces(CStr(arg.s), 0)
    ensures p == |CStr(arg.s)| || CStr(arg.s)[p] != '[' ==> ParseTextSpec(arg, atof) == Err(NoOpenBracket)
    ensures p < |CStr(arg.s)| && CStr(arg.s)[p] == '[' ==>
      ParseTextSpec(arg, atof) == BodySpec(CStr(arg.s)[p + 1..], atof)
  {
  }

  /** `vectorParseText`: reads `[e1, e2, ...]` into the elements of `v`, ignoring
      whitespace everywhere, and returns the element count, or -1 and the reason. */
  method ParseText(arg: SqlValue, v: Vector, atof: AtoF) returns (rc: int, err: Option<TextError>)
    requires v.data.Owned? && v.data.elems.Length >= MAX_VECTOR_SZ
    modifies v, v.data.elems
    ensures v.data == old(v.data) && v.vtype == old(v.vtype) && v.isStatic == old(v.isStatic)
    ensures ParseTextSpec(arg, atof).Err? ==>
      rc == -1 && err == Some(ParseTextSpec(arg, atof).error) && v.dims == old(v.dims)
    ensures ParseTextSpec(arg, atof).Ok? ==>
      err == None && rc == v.dims == |ParseTextSpec(arg, atof).value| &&
      Elements(v) == ParseTextSpec(arg, atof).value
  {
    if !arg.Text? {
      return -1, Some(NotText);
    }
    var s := arg.s;
    var p := SkipSpace(s, 0);
    AtCStr(s, p);
    TextAtOpen(arg, p, atof);
    if At(s, p) != '[' {
      return -1, Some(NoOpenBracket);
    }
    p := p + 1;
    rc, err := ParseBody(s, p, v, atof);
  }

  /** Whitespace alone is nothing but whitespace once cleaned. */
  lemma {:induction false} CleanAllSpace(t: string)
    requires AllSpace(t)
    ensures Clean(t) == []
    decreases |t|
  {
    if |t| > 0 {
      CleanAllSpace(t[..|t| - 1]);
    }
  }

  /** Element texts that all pass number at most `MAX_VECTOR_SZ`: the check of the text
      at index `MAX_VECTOR_SZ` would fail. */
  lemma TokensOkBound(tokens: seq<string>, atof: AtoF)
    requires TokensOk(tokens, atof)
    ensures |tokens| <= MAX_VECTOR_SZ
  {
    assert |tokens| > MAX_VECTOR_SZ ==>
      TokenCheck(tokens[MAX_VECTOR_SZ], MAX_VECTOR_SZ, atof).Some?;
  }

  /** `[]`, with any whitespace around and inside the brackets, is the empty vector. */
  lemma EmptyBrackets(w1: string, w2: string, w3: string, atof: AtoF)
    requires AllSpace(w1) && AllSpace(w2) && AllSpace(w3)
    ensures ParseTextSpec(Text(w1 + "[" + w2 + "]" + w3), atof) == Ok([])
  {
    var t := w1 + "[" + w2 + "]" + w3;
    OpenAfterSpaces(w1, w2, w3);
    EmptyBody(w2, w3, atof);
  }

  /** In such a text the opening bracket is found after `w1`, and the body follows it. */
  lemma OpenAfterSpaces(w1: string, w2: string, w3: string)
    requires AllSpace(w1) && AllSpace(w2) && AllSpace(w3)
    ensures var t := w1 + "[" + w2 + "]" + w3;
      CStr(t) == t && SkipSpaces(t, 0) == |w1| && t[|w1|] == '[' && t[|w1| + 1..] == w2 + "]" + w3
  {
    var t := w1 + "[" + w2 + "]" + w3;
    assert forall k :: 0 <= k < |t| ==> t[k] != '\0' by {
      forall k | 0 <= k < |t| ensures t[k] != '\0' {
        if k < |w1| {
          assert t[k] == w1[k];
        } else if |w1| < k <= |w1| + |w2| {
          assert t[k] == w2[k - |w1| - 1];
        } else if |w1| + |w2| + 1 < k {
          assert t[k] == w3[k - |w1| - |w2| - 2];
        }
      }
    }
    NoNulCStr(t);
    assert t[..|w1|] == w1;
    SkipSpacesAt(t, 0, |w1|);
    assert t[|w1| + 1..] == w2 + "]" + w3;
  }

  /** A body of whitespace, `]` and whitespace is the empty vector. */
  lemma EmptyBody(w2: string, w3: string, atof: AtoF)
    requires AllSpace(w2) && AllSpace(w3)
    ensures BodySpec(w2 + "]" + w3, atof) == Ok([])
  {
    var body := w2 + "]" + w3;
    assert IndexOf(body, ']') == |w2| by {
      assert forall k :: 0 <= k < |w2| ==> body[k] == w2[k];
      assert body[|w2|] == ']';
    }
    assert body[..|w2|] == w2;
    CleanAllSpace(w2);
    assert body[|w2| + 1..] == w3;
    ClosedEmpty(body, |w2|, atof);
  }

  /** What the float32 formatter and the number conversion must satisfy for printed
      vectors to read back: each element prints as a nonempty text that holds no
      whitespace, comma, `]` or NUL and converts back to the same bit pattern. */
  ghost predicate ReadsBack(s: string, x: bv32, atof: AtoF)
  {
    1 <= |s| && atof(s) == Some(x) &&
    forall k :: 0 <= k < |s| ==> !IsSpace(s[k]) && s[k] != ',' && s[k] != ']' && s[k] != '\0'
  }

  ghost predicate Compatible(fmt: bv32 -> string, atof: AtoF)
  {
    forall x :: ReadsBack(FormatF32(fmt, x), x, atof)
  }

  /** The first `c` in `s` is at i when `s[i]` is `c` and no earlier character is. */
  lemma IndexOfAt(s: string, c: char, i: nat)
    requires i < |s| && s[i] == c && forall k :: 0 <= k < i ==> s[k] != c
    ensures IndexOf(s, c) == i
  {
  }

  /** A text without NUL that starts with `[` is read by `BodySpec` from just after it. */
  lemma OpenBracket(t: string, atof: AtoF)
    requires |t| >= 1 && t[0] == '[' && forall k :: 0 <= k < |t| ==> t[k] != '\0'
    ensures ParseTextSpec(Text(t), atof) == BodySpec(t[1..], atof)
  {
    assert CStr(t) == t;
    assert SkipSpaces(t, 0) == 0;
  }

  /** A bracketed text whose inside holds no whitespace, `]` or NUL is read by
      `BodySpec` with the whole inside as the element text. */
  lemma Bracketed(j: string, atof: AtoF)
    requires forall k :: 0 <= k < |j| ==> !IsSpace(j[k]) && j[k] != ']' && j[k] != '\0'
    ensures ParseTextSpec(Text("[" + j + "]"), atof) == BodySpec(j + "]", atof)
  {
    BracketedText(j);
    OpenBracket("[" + j + "]", atof);
  }

  lemma BracketedText(j: string)
    requires forall k :: 0 <= k < |j| ==> j[k] != '\0'
    ensures var t := "[" + j + "]";
      |t| >= 1 && t[0] == '[' && (forall k :: 0 <= k < |t| ==> t[k] != '\0') && t[1..] == j + "]"
  {
    var t := "[" + j + "]";
    assert forall k :: 0 < k < |t| - 1 ==> t[k] == j[k - 1];
    assert t[1..] == j + "]";
  }

  /** The inside of such a text ends at its `]`, with nothing after it. */
  lemma BracketInside(j: string)
    requires forall k :: 0 <= k < |j| ==> !IsSpace(j[k]) && j[k] != ']' && j[k] != '\0'
    ensures IndexOf(j + "]", ']') == |j| && (j + "]")[..|j|] == j && Clean(j) == j
    ensures (j + "]")[|j| + 1..] == []
  {
    IndexOfAt(j + "]", ']', |j|);
    assert (j + "]")[..|j|] == j;
    CleanNoSpace(j);
  }

  /** Under compatible formatting every element text passes and converts back. */
  lemma PartsReadBack(fmt: bv32 -> string, xs: seq<bv32>, atof: AtoF)
    requires Compatible(fmt, atof) && |xs| <= MAX_VECTOR_SZ
    ensures TokensOk(Formatted(fmt, xs), atof)
    ensures Values(Formatted(fmt, xs), atof) == xs
  {
    var parts := Formatted(fmt, xs);
    assert forall i :: 0 <= i < |parts| ==> ReadsBack(parts[i], xs[i], atof);
  }

  /** A closed list whose inside has no whitespace and whose element texts all pass is
      read as their values; an empty inside is the empty vector. */
  lemma ClosedList(j: string, atof: AtoF)
    requires IndexOf(j + "]", ']') == |j| && (j + "]")[..|j|] == j && Clean(j) == j
    requires (j + "]")[|j| + 1..] == []
    requires j != [] ==> TokensOk(Split(j, ','), atof)
    ensures j == [] ==> BodySpec(j + "]", atof) == Ok([])
    ensures j != [] ==> BodySpec(j + "]", atof) == Ok(Values(Split(j, ','), atof))
  {
    if j != [] {
      FirstFailureNone(Split(j, ','), atof);
    }
  }

  /** Text rendered by the float32 codec parses back to the same elements, the empty
      vector included, when the formatter and the conversion are compatible. */
  lemma RenderParses(fmt: bv32 -> string, xs: seq<bv32>, atof: AtoF)
    requires Compatible(fmt, atof) && |xs| <= MAX_VECTOR_SZ
    ensures ParseTextSpec(Text(Render(fmt, xs)), atof) == Ok(xs)
  {
    var parts := Formatted(fmt, xs);
    var j := Join(parts, ',');
    assert forall i :: 0 <= i < |parts| ==> ReadsBack(parts[i], xs[i], atof);
    JoinAvoids(parts, ',', c => IsSpace(c) || c == ']' || c == '\0');
    Bracketed(j, atof);
    BracketInside(j);
    assert Render(fmt, xs) == "[" + j + "]";
    PartsReadBack(fmt, xs, atof);
    if |xs| > 0 {
      assert NoneContains(parts, ',');
      SplitJoin(parts, ',');
      JoinCoversLast(parts, ',');
    }
    ClosedList(j, atof);
  }

  /** How a value fails to be a vector. */
  datatype ParseError =
    | NullVector
    | NotTextOrBlob
    | BadBlob(blobError: BlobError)
    | BadText(textError: TextError)

  /** What a value denotes as a float32 vector: NULL is refused, a blob is read as
      packed elements, a text as a bracketed list, anything else is refused. */
  function ParseSpec(arg: SqlValue, atof: AtoF): Result<seq<bv32>, ParseError>
  {
    match arg
    case Null => Err(NullVector)
    case Blob(_) =>
      var r := ParseBlobSpec(arg);
      if r.Ok? then Ok(r.value) else Err(BadBlob(r.error))
    case Text(_) =>
      var r := ParseTextSpec(arg, atof);
      if r.Ok? then Ok(r.value) else Err(BadText(r.error))
    case _ => Err(NotTextOrBlob)
  }

  /** A parsed vector never holds more than `MAX_VECTOR_SZ` elements. */
  lemma ParseSpecBound(arg: SqlValue, atof: AtoF)
    ensures ParseSpec(arg, atof).Ok? ==> |ParseSpec(arg, atof).value| <= MAX_VECTOR_SZ
  {
    if arg.Text? && ParseTextSpec(arg, atof).Ok? {
      var t := CStr(arg.s);
      var open := SkipSpaces(t, 0);
      var body := t[open + 1..];
      var tokens := BodyTokens(body);
      if Clean(body[..IndexOf(body, ']')]) != [] {
        FirstFailureNone(tokens, atof);
        TokensOkBound(tokens, atof);
      }
    }
  }

  /** `vectorParse`: dispatches on the value's type to the blob or the text parser. */
  method Parse(arg: SqlValue, v: Vector, atof: AtoF) returns (rc: int, err: Option<ParseError>)
    requires v.vtype == Float32 && v.data.Owned? && v.data.elems.Length >= MAX_VECTOR_SZ
    modifies v, v.data.elems
    ensures v.data == old(v.data) && v.vtype == old(v.vtype) && v.isStatic == old(v.isStatic)
    ensures ParseSpec(arg, atof).Err? ==>
      rc == -1 && err == Some(ParseSpec(arg, atof).error) && v.dims == old(v.dims)
    ensures ParseSpec(arg, atof).Ok? ==>
      err == None && rc == v.dims == |ParseSpec(arg, atof).value| &&
      Elements(v) == ParseSpec(arg, atof).value
  {
    match arg
    case Null =>
      return -1, Some(NullVector);
    case Blob(_) =>
      var e;
      rc, e := ParseBlob(arg, v);
      err := if e.Some? then Some(BadBlob(e.value)) else None;
    case Text(_) =>
      var e;
      rc, e := ParseText(arg, v, atof);
      err := if e.Some? then Some(BadText(e.value)) else None;
    case _ =>
      return -1, Some(NotTextOrBlob);
  }

  /** ASCII lower-casing, as `sqlite3_strnicmp` compares. */
  function LowerAscii(c: char): char
  {
    if 'A' <= c <= 'Z' then (c as int + 32) as char else c
  }

  /** `sqlite3_strnicmp(t, pat, |pat|) == 0` for a pattern without NUL: the text starts
      with the pattern up to ASCII case. */
  predicate HasPrefixNoCase(t: string, pat: string)
  {
    |pat| <= |t| && forall k :: 0 <= k < |pat| ==> LowerAscii(t[k]) == LowerAscii(pat[k])
  }

  /** What a column type denotes as a vector dimension count: after a `FLOAT32(` or
      `FLOAT64(` prefix in any case, the count `CountSpec` reads; -1 otherwise. */
  function DimsSpec(t: string): int
  {
    if !(HasPrefixNoCase(t, "FLOAT32(") || HasPrefixNoCase(t, "FLOAT64(")) then -1
    else CountSpec(t[8..])
  }

  /** The count after the prefix: only decimal digits up to a `)`, or -1. Whatever
      follows the `)` is not looked at. */
  function CountSpec(rest: string): int
  {
    var close := IndexOf(rest, ')');
    if close == |rest| || !AllDigits(rest[..close]) then -1
    else DigitsValue(rest[..close])
  }

  /** A character that is neither a digit nor `)` before the first `)` refuses the count. */
  lemma CountNonDigit(rest: string, i: nat)
    requires i < |rest| && rest[i] != ')' && !IsDigit(rest[i])
    requires forall k :: 0 <= k < i ==> rest[k] != ')'
    ensures CountSpec(rest) == -1
  {
    var close := IndexOf(rest, ')');
    if close < |rest| {
      assert i < close;
      assert rest[..close][i] == rest[i];
    }
  }

  /** The digits read so far, one more digit on. */
  lemma DigitsSnoc(rest: string, i: nat)
    requires i < |rest| && IsDigit(rest[i]) && AllDigits(rest[..i])
    ensures AllDigits(rest[..i + 1])
    ensures DigitsValue(rest[..i + 1]) == DigitsValue(rest[..i]) * 10 + DigitValue(rest[i])
  {
    assert rest[..i + 1][..i] == rest[..i];
  }

  /** Digits up to the first `)` are the count. */
  lemma CountAt(rest: string, i: nat)
    requires i < |rest| && rest[i] == ')' && AllDigits(rest[..i])
    requires forall k :: 0 <= k < i ==> rest[k] != ')'
    ensures CountSpec(rest) == DigitsValue(rest[..i])
  {
    IndexOfAt(rest, ')', i);
  }

  /** `parseVectorDims`: reads the dimension count of a `FLOAT32(N)` / `FLOAT64(N)`
      column type, or -1. */
  method ParseVectorDims(zType: string) returns (dims: int)
    ensures dims == DimsSpec(CStr(zType))
  {
    var t := CStr(zType);
    if !(HasPrefixNoCase(t, "FLOAT32(") || HasPrefixNoCase(t, "FLOAT64(")) {
      return -1;
    }
    ghost var rest := t[8..];
    var z := 8;
    var acc: nat := 0;
    AtCStr(zType, z);
    while At(zType, z) != '\0' && At(zType, z) != ')'
      invariant 8 <= z <= |t| && AllDigits(rest[..z - 8]) && acc == DigitsValue(rest[..z - 8])
      invariant forall k :: 0 <= k < z - 8 ==> rest[k] != ')'
      decreases |t| - z
    {
      AtCStr(zType, z);
      var c := At(zType, z);
      if !IsDigit(c) {
        CountNonDigit(rest, z - 8);
        return -1;
      }
      DigitsSnoc(rest, z - 8);
      acc := acc * 10 + DigitValue(c);
      z := z + 1;
      AtCStr(zType, z);
    }
    AtCStr(zType, z);
    if At(zType, z) == '\0' {
      assert IndexOf(rest, ')') == |rest|;
      return -1;
    }
    CountAt(rest, z - 8);
    return acc;
  }

  /** A text without NUL is what a C routine sees. */
  lemma NoNulCStr(t: string)
    requires '\0' !in t
    ensures CStr(t) == t
  {
  }

  /** Both accepted prefixes pass the case-insensitive prefix test. */
  lemma PrefixAccepted(name: string, rest: string)
    requires name == "FLOAT32(" || name == "FLOAT64("
    ensures HasPrefixNoCase(name + rest, "FLOAT32(") || HasPrefixNoCase(name + rest, "FLOAT64(")
  {
    var t := name + rest;
    assert HasPrefixNoCase(t, name) by {
      forall k | 0 <= k < |name| ensures LowerAscii(t[k]) == LowerAscii(name[k]) {
        assert t[k] == name[k];
      }
    }
  }

  /** After one of the accepted prefixes, the count is read from what follows it. */
  lemma DimsAfterPrefix(name: string, rest: string)
    requires name == "FLOAT32(" || name == "FLOAT64("
    requires '\0' !in rest
    ensures DimsSpec(CStr(name + rest)) == CountSpec(rest)
  {
    var t := name + rest;
    assert '\0' !in t by {
      assert forall k :: 0 <= k < |t| ==> t[k] == (if k < 8 then name[k] else rest[k - 8]);
    }
    NoNulCStr(t);
    PrefixAccepted(name, rest);
    assert t[8..] == rest;
  }

  /** Decimal text holds no NUL; that of a natural number is all digits, that of a
      negative number starts with `-`. */
  lemma DecimalText(d: int)
    ensures '\0' !in IntToString(d) && ')' !in IntToString(d)
    ensures d >= 0 ==> IntToString(d) == NatToString(d)
    ensures d < 0 ==> IntToString(d)[0] == '-'
  {
    var s := IntToString(d);
    if d < 0 {
      assert s[1..] == NatToString(-d);
      assert forall k :: 1 <= k < |s| ==> s[k] == s[1..][k - 1];
    }
  }

  /** The column type a table declares with a decimal dimension count parses back to
      that count, whatever follows the `)`; a negative count is refused. */
  lemma DimsOfDeclaredType(name: string, d: int, suffix: string)
    requires name == "FLOAT32(" || name == "FLOAT64("
    requires '\0' !in suffix
    ensures DimsSpec(CStr(name + IntToString(d) + ")" + suffix)) == if d >= 0 then d else -1
  {
    var digits := IntToString(d);
    var rest := digits + ")" + suffix;
    DecimalText(d);
    assert name + digits + ")" + suffix == name + rest;
    DimsAfterPrefix(name, rest);
    if d >= 0 {
      assert forall k :: 0 <= k < |digits| ==> rest[k] == digits[k];
      assert rest[..|digits|] == digits;
      CountAt(rest, |digits|);
      DigitsRoundTrip(d);
    } else {
      assert rest[0] == '-';
      CountNonDigit(rest, 0);
    }
  }

  /** `vectorFree`: a null vector or a static one is left alone; any other is released. */
  method Free(p: Vector?) returns (released: bool)
    ensures released <==> p != null && !p.isStatic
  {
    if p == null {
      return false;
    }
    if p.isStatic {
      return false;
    }
    return true;
  }

  /** `vectorInitStatic` for float32: the vector points into the blob and is marked
      static, so freeing it never releases the blob. */
  method InitStatic(p: Vector, t: VectorType, blob: array<bv8>, blobSz: nat)
    requires t == Float32 && blobSz <= blob.Length
    modifies p
    ensures p.vtype == t && p.isStatic && p.data == Borrowed(blob) && p.dims == blobSz / 4
    ensures Elements(p) == DecodeAll(blob[..blobSz])
  {
    InitFromBlob(p, blob, blobSz);
    p.vtype := t;
    p.isStatic := true;
  }

  /** The SQL value a parsed vector is returned as: NULL for no elements, otherwise the
      packed blob. */
  function SerializedValue(xs: seq<bv32>): SqlValue
  {
    if |xs| == 0 then Null else Blob(EncodeAll(xs))
  }

  /** `vectorSerialize`: a vector without elements becomes NULL, any other its blob. */
  method SerializeValue(v: Vector) returns (r: SqlValue)
    requires v.vtype == Float32 && v.dims <= v.data.Capacity()
    ensures r == SerializedValue(Elements(v))
  {
    if v.dims == 0 {
      return Null;
    }
    r := Serialize(v);
  }

  /** A serialized vector parses back to its elements, except that the empty vector,
      returned as NULL, is refused. */
  lemma SerializedParses(xs: seq<bv32>, atof: AtoF)
    requires |xs| <= MAX_VECTOR_SZ
    ensures ParseSpec(SerializedValue(xs), atof) ==
      if |xs| == 0 then Err(NullVector) else Ok(xs)
  {
    ParseBlobRoundTrip(xs, []);
  }

  /** Why an SQL vector function reports an error. */
  datatype FuncError = BadVector(parseError: ParseError) | LengthMismatch

  /** What an SQL function call yields: nothing (too few arguments), a value or an error. */
  datatype SqlResult = NoResult | Value(value: SqlValue) | Error(error: FuncError)

  /** `vector(X)`: X parsed as a float32 vector and returned serialized. */
  function VectorSpec(args: seq<SqlValue>, atof: AtoF): SqlResult
  {
    if |args| < 1 then NoResult
    else
      var r := ParseSpec(args[0], atof);
      if r.Err? then Error(BadVector(r.error)) else Value(SerializedValue(r.value))
  }

  /** `vectorFunc`. */
  method VectorFunc(args: seq<SqlValue>, atof: AtoF) returns (r: SqlResult)
    ensures r == VectorSpec(args, atof)
  {
    if |args| < 1 {
      return NoResult;
    }
    var pVec := new Vector.Alloc(Float32, MAX_VECTOR_SZ);
    var rc, err := Parse(args[0], pVec, atof);
    if rc < 0 {
      r := Error(BadVector(err.value));
    } else {
      var value := SerializeValue(pVec);
      r := Value(value);
    }
    var _ := Free(pVec);
  }

  /** `vector` is idempotent on the vectors it returns as blobs; the empty vector comes
      back as NULL, which `vector` refuses. */
  lemma VectorIdempotent(args: seq<SqlValue>, atof: AtoF)
    requires VectorSpec(args, atof).Value?
    ensures VectorSpec(args, atof).value != Null ==>
      VectorSpec([VectorSpec(args, atof).value], atof) == VectorSpec(args, atof)
    ensures VectorSpec(args, atof).value == Null ==>
      VectorSpec([VectorSpec(args, atof).value], atof) == Error(BadVector(NullVector))
  {
    var xs := ParseSpec(args[0], atof).value;
    ParseSpecBound(args[0], atof);
    SerializedParses(xs, atof);
  }

  /** `vector_extract(X)`: X parsed as a float32 vector and returned as text. */
  function ExtractSpec(args: seq<SqlValue>, fmt: bv32 -> string, atof: AtoF): SqlResult
  {
    if |args| < 1 then NoResult
    else
      var r := ParseSpec(args[0], atof);
      if r.Err? then Error(BadVector(r.error)) else Value(Text(Render(fmt, r.value)))
  }

  /** `vectorExtractFunc`, rendering with the corrected `vectorF32Deserialize`. */
  method VectorExtractFunc(args: seq<SqlValue>, fmt: bv32 -> string, atof: AtoF) returns (r: SqlResult)
    ensures r == ExtractSpec(args, fmt, atof)
  {
    if |args| < 1 {
      return NoResult;
    }
    var pVec := new Vector.Alloc(Float32, MAX_VECTOR_SZ);
    var rc, err := Parse(args[0], pVec, atof);
    if rc < 0 {
      r := Error(BadVector(err.value));
    } else {
      ParseSpecBound(args[0], atof);
      var text := Deserialize(pVec, fmt);
      r := Value(Text(text));
    }
    var _ := Free(pVec);
  }

  /** Extracting a vector as text and reading that text back as a vector gives what
      reading the original gives, when the formatter and the conversion are compatible. */
  lemma ExtractThenVector(args: seq<SqlValue>, fmt: bv32 -> string, atof: AtoF)
    requires Compatible(fmt, atof) && ExtractSpec(args, fmt, atof).Value?
    ensures VectorSpec([ExtractSpec(args, fmt, atof).value], atof) == VectorSpec(args, atof)
  {
    var xs := ParseSpec(args[0], atof).value;
    ParseSpecBound(args[0], atof);
    RenderParses(fmt, xs, atof);
  }

  /** `vector_extract('[]')` as written: the text `[]` is the empty vector, whose
      rendering is the lone `]`, which `vector` then refuses for lacking a `[`. */
  lemma EmptyExtractAsWritten(fmt: bv32 -> string, atof: AtoF)
    ensures ParseSpec(Text("[]"), atof) == Ok([])
    ensures RenderAsWritten(fmt, []) == "]"
    ensures ParseSpec(Text(RenderAsWritten(fmt, [])), atof) == Err(BadText(NoOpenBracket))
  {
    EmptyBrackets([], [], [], atof);
    assert [] + "[" + [] + "]" + [] == "[]";
    var t := "]";
    assert CStr(t) == t;
    assert SkipSpaces(t, 0) == 0;
  }

  /** With the corrected renderer the empty vector survives `vector_extract`
      for every formatter: it renders as `[]`, which `vector` reads back as the
      empty vector, NULL once serialized, as `vector(X)` itself gives. */
  lemma ExtractEmptyThenVector(args: seq<SqlValue>, fmt: bv32 -> string, atof: AtoF)
    requires |args| >= 1 && ParseSpec(args[0], atof) == Ok([])
    ensures ExtractSpec(args, fmt, atof) == Value(Text("[]"))
    ensures VectorSpec(args, atof) == Value(Null)
    ensures VectorSpec([ExtractSpec(args, fmt, atof).value], atof) == VectorSpec(args, atof)
  {
    assert Formatted(fmt, []) == [];
    assert Render(fmt, []) == "[]";
    EmptyBrackets([], [], [], atof);
    assert [] + "[" + [] + "]" + [] == "[]";
  }

  /** `vector_distance_cos(X, Y)`: both parsed as float32 vectors, which must have the
      same length; the distance itself is computed by `dist`. */
  function DistanceSpec(args: seq<SqlValue>, atof: AtoF, dist: (seq<bv32>, seq<bv32>) -> real): SqlResult
  {
    if |args| < 2 then NoResult
    else
      var r1 := ParseSpec(args[0], atof);
      if r1.Err? then Error(BadVector(r1.error))
      else
        var r2 := ParseSpec(args[1], atof);
        if r2.Err? then Error(BadVector(r2.error))
        else if |r1.value| != |r2.value| then Error(LengthMismatch)
        else Value(Float(dist(r1.value, r2.value)))
  }

  /** `vectorDistanceCosFunc`. */
  method DistanceCosFunc(args: seq<SqlValue>, atof: AtoF, dist: (seq<bv32>, seq<bv32>) -> real)
    returns (r: SqlResult)
    ensures r == DistanceSpec(args, atof, dist)
  {
    if |args| < 2 {
      return NoResult;
    }
    var pVec1 := new Vector.Alloc(Float32, MAX_VECTOR_SZ);
    var pVec2 := new Vector.Alloc(Float32, MAX_VECTOR_SZ);
    var rc1, err1 := Parse(args[0], pVec1, atof);
    if rc1 < 0 {
      r := Error(BadVector(err1.value));
    } else {
      var xs1 := Elements(pVec1);
      var rc2, err2 := Parse(args[1], pVec2, atof);
      if rc2 < 0 {
        r := Error(BadVector(err2.value));
      } else if pVec1.dims != pVec2.dims {
        r := Error(LengthMismatch);
      } else {
        r := Value(Float(dist(xs1, Elements(pVec2))));
      }
    }
    var _ := Free(pVec2);
    var _ := Free(pVec1);
  }

  /** Two vectors are compared exactly when both parse and their lengths agree; any
      vector can be compared with itself. */
  lemma DistanceRule(args: seq<SqlValue>, atof: AtoF, dist: (seq<bv32>, seq<bv32>) -> real)
    requires |args| >= 2
    ensures DistanceSpec(args, atof, dist).Value? <==>
      ParseSpec(args[0], atof).Ok? && ParseSpec(args[1], atof).Ok? &&
      |ParseSpec(args[0], atof).value| == |ParseSpec(args[1], atof).value|
    ensures args[0] == args[1] && ParseSpec(args[0], atof).Ok? ==>
      DistanceSpec(args, atof, dist) ==
        Value(Float(dist(ParseSpec(args[0], atof).value, ParseSpec(args[0], atof).value)))
  {
  }
}
