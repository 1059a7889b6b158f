/** Documents as decoded from a hit's JSON source, dot-path field
    evaluation on them, and substitution of `%field` tokens in the display
    template (elktail.go:343-355, 590-624). */
module Document {
  import opened Wrappers
  import opened Strings

  /** A decoded JSON value. A JSON `null` (and a missing key) reads as
      Go's nil. */
  datatype Doc =
    | Obj(fields: map<string, Doc>)
    | Arr(items: seq<Doc>)
    | Str(s: string)
    | Num(text: string)
    | Boolean(b: bool)
    | Null

  /** The model has a non-nil value under `key`. */
  predicate HasValue(model: Doc, key: string)
  {
    model.Obj? && key in model.fields && model.fields[key] != Null
  }

  /** The sub-document an expression designates. The whole expression as a
      key wins; otherwise the part before the first '.' selects a child and
      the rest is evaluated on it. A missing key or a non-map model is an
      error. Each step strictly shortens the expression. */
  function Evaluate(model: Doc, expr: string): (r: Result<Doc>)
    ensures expr == "" ==> r == Ok(model)
    ensures expr != "" && HasValue(model, expr) ==> r == Ok(model.fields[expr])
    ensures expr != "" && !model.Obj? ==> r.Err?
    decreases |expr|
  {
    if expr == "" then Ok(model)
    else if !model.Obj? then Err("model is not a map")
    else if HasValue(model, expr) then Evaluate(model.fields[expr], "")
    else
      var (head, rest) := SplitFirst(expr, '.');
      var next := if rest.Some? then rest.value else "";
      if HasValue(model, head) then Evaluate(model.fields[head], next)
      else Err("model map does not contain that key")
  }

  /** EvaluateExpression: the designated value rendered with `show` (Go's
      `%v` formatting, not modelled), or the empty string and an error. */
  function EvaluateExpression(model: Doc, expr: string, show: Doc -> string): (r: Result<string>)
    ensures r.Ok? <==> Evaluate(model, expr).Ok?
    ensures r.Ok? ==> r.value == show(Evaluate(model, expr).value)
  {
    match Evaluate(model, expr)
    case Ok(v) => Ok(show(v))
    case Err(m) => Err(m)
  }

  /** Reference definition: follow a path of keys, one map level per key. */
  function Walk(model: Doc, keys: seq<string>): Option<Doc>
  {
    if |keys| == 0 then Some(model)
    else if HasValue(model, keys[0]) then Walk(model.fields[keys[0]], keys[1..])
    else None
  }

  /** No key at any depth contains a '.'. */
  predicate DotFree(model: Doc)
  {
    match model
    case Obj(fields) => forall k :: k in fields ==> '.' !in k && DotFree(fields[k])
    case _ => true
  }

  predicate IsKeyPath(keys: seq<string>)
  {
    forall i :: 0 <= i < |keys| ==> keys[i] != "" && '.' !in keys[i]
  }

  /** On a document whose keys contain no dots, evaluating the dot-joined
      path walks it: it yields the value at the end of the path when every
      key is present, and an error otherwise. */
  lemma {:induction false} EvaluatePath(model: Doc, keys: seq<string>)
    requires DotFree(model) && IsKeyPath(keys)
    ensures Walk(model, keys).Some? ==> Evaluate(model, Join(keys, ".")) == Ok(Walk(model, keys).value)
    ensures Walk(model, keys).None? ==> Evaluate(model, Join(keys, ".")).Err?
    decreases |keys|
  {
    if |keys| == 1 {
      assert Join(keys, ".") == keys[0];
      if HasValue(model, keys[0]) {
        assert Walk(model.fields[keys[0]], keys[1..]) == Some(model.fields[keys[0]]);
      } else {
        var (head, rest) := SplitFirst(keys[0], '.');
        assert head == keys[0];
      }
    } else if |keys| > 1 {
      var expr := Join(keys, ".");
      assert expr == keys[0] + "." + Join(keys[1..], ".");
      assert expr[|keys[0]|] == '.';
      var (head, rest) := SplitFirst(expr, '.');
      SplitFirstAt(keys[0], Join(keys[1..], "."));
      assert head == keys[0] && rest == Some(Join(keys[1..], "."));
      if model.Obj? {
        assert !HasValue(model, expr);
      }
      if HasValue(model, keys[0]) {
        assert IsKeyPath(keys[1..]);
        EvaluatePath(model.fields[keys[0]], keys[1..]);
      }
    }
  }

  /** What a token shows for a dotted path on a document whose keys contain
      no dots: the rendered value at the end of the path when every key is
      present, and nothing otherwise. */
  lemma FieldValuePath(model: Doc, keys: seq<string>, show: Doc -> string)
    requires DotFree(model) && IsKeyPath(keys)
    ensures Walk(model, keys).Some? ==>
              EvaluateExpression(model, Join(keys, "."), show) == Ok(show(Walk(model, keys).value)) &&
              FieldValue(model, Join(keys, "."), show) == show(Walk(model, keys).value)
    ensures Walk(model, keys).None? ==>
              EvaluateExpression(model, Join(keys, "."), show).Err? &&
              FieldValue(model, Join(keys, "."), show) == ""
  {
    EvaluatePath(model, keys);
  }

  /** Splitting `a + "." + b` at the first dot, when `a` has none, gives
      back `a` and `b`. */
  lemma {:induction false} SplitFirstAt(a: string, b: string)
    requires '.' !in a
    ensures SplitFirst(a + "." + b, '.') == (a, Some(b))
    decreases |a|
  {
    if |a| == 0 {
      assert a + "." + b == ['.'] + b;
    } else {
      assert (a + "." + b)[1..] == a[1..] + "." + b;
      SplitFirstAt(a[1..], b);
      assert a == [a[0]] + a[1..];
    }
  }

  // ---------------------------------------------------------------------
  // Display template
  // ---------------------------------------------------------------------

  /** Characters that may follow '%' in a template token. */
  predicate TokenChar(c: char)
  {
    ('A' <= c <= 'Z') || ('a' <= c <= 'z') || ('0' <= c <= '9') ||
    c == '@' || c == '_' || c == '.' || c == '-'
  }

  /** Length of the run of token characters at the front of `s`. */
  function TokenRun(s: string): (n: nat)
    ensures n <= |s|
    ensures forall k :: 0 <= k < n ==> TokenChar(s[k])
    ensures n < |s| ==> !TokenChar(s[n])
  {
    if |s| > 0 && TokenChar(s[0]) then 1 + TokenRun(s[1..]) else 0
  }

  /** The value a token's field expression contributes: the rendered value,
      or the empty string when the expression cannot be evaluated. */
  function FieldValue(entry: Doc, expr: string, show: Doc -> string): string
  {
    match EvaluateExpression(entry, expr, show)
    case Ok(v) => v
    case Err(_) => ""
  }

  /** All matches of `%[A-Za-z0-9@_.-]+` in `s`, left to right. */
  function Tokens(s: string): (r: seq<string>)
    ensures forall k :: 0 <= k < |r| ==> |r[k]| >= 2 && r[k][0] == '%'
    decreases |s|
  {
    if |s| == 0 then []
    else
      var n := if s[0] == '%' then TokenRun(s[1..]) else 0;
      if n > 0 then [s[..n + 1]] + Tokens(s[n + 1..])
      else Tokens(s[1..])
  }

  /** printResult as written: for each token in turn, every occurrence of
      it in the partly substituted line is replaced by its value. */
  function PrintResultAsWritten(format: string, entry: Doc, show: Doc -> string): string
  {
    ReplaceEach(format, Tokens(format), entry, show)
  }

  function ReplaceEach(result: string, fields: seq<string>, entry: Doc, show: Doc -> string): string
    requires forall k :: 0 <= k < |fields| ==> |fields[k]| >= 2
    decreases |fields|
  {
    if |fields| == 0 then result
    else
      var f := fields[0];
      ReplaceEach(ReplaceAll(result, f, FieldValue(entry, f[1..], show)), fields[1..], entry, show)
  }

  /** The display line: one left-to-right pass in which every token of the
      template is replaced by the value of its field expression and all
      other text is kept. */
  function PrintResult(format: string, entry: Doc, show: Doc -> string): string
    decreases |format|
  {
    if |format| == 0 then ""
    else
      var n := if format[0] == '%' then TokenRun(format[1..]) else 0;
      if n > 0 then FieldValue(entry, format[1..n + 1], show) + PrintResult(format[n + 1..], entry, show)
      else [format[0]] + PrintResult(format[1..], entry, show)
  }

  /** A template as pieces: literal text, or a `%field` token. */
  datatype Piece = Lit(text: string) | Field(expr: string)

  function Render(pieces: seq<Piece>): string
  {
    if |pieces| == 0 then ""
    else (match pieces[0] case Lit(t) => t case Field(e) => "%" + e) + Render(pieces[1..])
  }

  function Substituted(pieces: seq<Piece>, entry: Doc, show: Doc -> string): string
  {
    if |pieces| == 0 then ""
    else (match pieces[0] case Lit(t) => t case Field(e) => FieldValue(entry, e, show))
         + Substituted(pieces[1..], entry, show)
  }

  /** Piece `i` is well placed: a literal is non-empty, has no '%' and,
      right after a field, does not start with a token character (else it would belong to
      the token); a field is a non-empty run of token characters followed
      by a literal, if by anything. */
  predicate PieceFits(pieces: seq<Piece>, i: int)
    requires 0 <= i < |pieces|
  {
    match pieces[i]
    case Lit(t) => |t| > 0 && '%' !in t && (i > 0 && pieces[i - 1].Field? ==> !TokenChar(t[0]))
    case Field(e) => |e| > 0 && (forall k :: 0 <= k < |e| ==> TokenChar(e[k])) &&
                     (i + 1 < |pieces| ==> pieces[i + 1].Lit?)
  }

  predicate WellFormed(pieces: seq<Piece>)
  {
    forall i :: 0 <= i < |pieces| ==> PieceFits(pieces, i)
  }

  /** The display line of a template written as literal text and tokens is
      the literal text with each token replaced by its field's value. */
  lemma {:induction false} PrintResultSubstitutes(pieces: seq<Piece>, entry: Doc, show: Doc -> string)
    requires WellFormed(pieces)
    ensures PrintResult(Render(pieces), entry, show) == Substituted(pieces, entry, show)
    decreases |pieces|
  {
    if |pieces| > 0 {
      TailWellFormed(pieces);
      assert PieceFits(pieces, 0);
      PrintResultSubstitutes(pieces[1..], entry, show);
      var rest := Render(pieces[1..]);
      match pieces[0]
      case Lit(t) =>
        LiteralKept(t, rest, entry, show);
      case Field(e) =>
        AfterFieldNoTokenChar(pieces);
        FieldReplaced(e, rest, entry, show);
        assert Render(pieces) == "%" + e + rest;
    }
  }

  /** The tokens a template written as pieces holds: `%` and the field, for
      each field piece in order. */
  function FieldTokens(pieces: seq<Piece>): seq<string>
  {
    if |pieces| == 0 then []
    else (if pieces[0].Field? then ["%" + pieces[0].expr] else []) + FieldTokens(pieces[1..])
  }

  /** The tokens found in a well-formed template are exactly its field
      pieces, left to right: each token is found whole, and nothing in the
      literal text is taken for one. */
  lemma {:induction false} TokensOfRender(pieces: seq<Piece>)
    requires WellFormed(pieces)
    ensures Tokens(Render(pieces)) == FieldTokens(pieces)
    decreases |pieces|
  {
    if |pieces| > 0 {
      TailWellFormed(pieces);
      assert PieceFits(pieces, 0);
      TokensOfRender(pieces[1..]);
      var rest := Render(pieces[1..]);
      match pieces[0]
      case Lit(t) =>
        LiteralHasNoToken(t, rest);
      case Field(e) =>
        AfterFieldNoTokenChar(pieces);
        FieldFound(e, rest);
        assert Render(pieces) == "%" + e + rest;
    }
  }

  lemma TailWellFormed(pieces: seq<Piece>)
    requires WellFormed(pieces) && |pieces| > 0
    ensures WellFormed(pieces[1..])
  {
    forall i | 0 <= i < |pieces[1..]| ensures PieceFits(pieces[1..], i) {
      assert PieceFits(pieces, i + 1);
      assert pieces[1..][i] == pieces[i + 1];
      if i > 0 { assert pieces[1..][i - 1] == pieces[i]; }
      if i + 1 < |pieces[1..]| { assert pieces[1..][i + 1] == pieces[i + 2]; }
    }
  }

  /** A token followed by a non-token character is found whole. */
  lemma FieldFound(e: string, rest: string)
    requires |e| > 0 && forall k :: 0 <= k < |e| ==> TokenChar(e[k])
    requires |rest| > 0 ==> !TokenChar(rest[0])
    ensures Tokens("%" + e + rest) == ["%" + e] + Tokens(rest)
  {
    var s := "%" + e + rest;
    assert s[1..] == e + rest;
    TokenRunOf(e, rest);
    assert s[..|e| + 1] == "%" + e;
    assert s[|e| + 1..] == rest;
  }

  /** Text without '%' holds no token. */
  lemma {:induction false} LiteralHasNoToken(t: string, rest: string)
    requires '%' !in t
    ensures Tokens(t + rest) == Tokens(rest)
    decreases |t|
  {
    if |t| == 0 {
      assert t + rest == rest;
    } else {
      assert (t + rest)[1..] == t[1..] + rest;
      LiteralHasNoToken(t[1..], rest);
    }
  }

  /** What follows a field in a well-formed template does not start with a
      token character. */
  lemma AfterFieldNoTokenChar(pieces: seq<Piece>)
    requires WellFormed(pieces) && |pieces| > 0 && pieces[0].Field?
    ensures var rest := Render(pieces[1..]); |rest| > 0 ==> !TokenChar(rest[0])
  {
    if |pieces| > 1 {
      assert PieceFits(pieces, 0) && PieceFits(pieces, 1);
      var t := pieces[1].text;
      assert Render(pieces[1..]) == t + Render(pieces[2..]);
    }
  }

  /** A token followed by a non-token character is replaced by its value. */
  lemma FieldReplaced(e: string, rest: string, entry: Doc, show: Doc -> string)
    requires |e| > 0 && forall k :: 0 <= k < |e| ==> TokenChar(e[k])
    requires |rest| > 0 ==> !TokenChar(rest[0])
    ensures PrintResult("%" + e + rest, entry, show) == FieldValue(entry, e, show) + PrintResult(rest, entry, show)
  {
    var s := "%" + e + rest;
    assert s[1..] == e + rest;
    TokenRunOf(e, rest);
    assert s[1..|e| + 1] == e;
    assert s[|e| + 1..] == rest;
  }

  /** The token run of `e + rest`, where `e` is all token characters and
      `rest` does not start with one, is `e`. */
  lemma {:induction false} TokenRunOf(e: string, rest: string)
    requires forall k :: 0 <= k < |e| ==> TokenChar(e[k])
    requires |rest| > 0 ==> !TokenChar(rest[0])
    ensures TokenRun(e + rest) == |e|
    decreases |e|
  {
    if |e| > 0 {
      assert (e + rest)[1..] == e[1..] + rest;
      TokenRunOf(e[1..], rest);
    } else {
      assert e + rest == rest;
    }
  }

  /** Text without '%' passes through unchanged. */
  lemma {:induction false} LiteralKept(t: string, rest: string, entry: Doc, show: Doc -> string)
    requires '%' !in t
    ensures PrintResult(t + rest, entry, show) == t + PrintResult(rest, entry, show)
    decreases |t|
  {
    if |t| == 0 {
      assert t + rest == rest;
    } else {
      assert (t + rest)[1..] == t[1..] + rest;
      LiteralKept(t[1..], rest, entry, show);
      assert t == [t[0]] + t[1..];
    }
  }

  // ---------------------------------------------------------------------
  // When printResult as written is right
  // ---------------------------------------------------------------------

  /** The field names of a template written as pieces. */
  function FieldNames(pieces: seq<Piece>): set<string>
  {
    if |pieces| == 0 then {}
    else (if pieces[0].Field? then {pieces[0].expr} else {}) + FieldNames(pieces[1..])
  }

  /** No field name is a proper prefix of another. */
  predicate PrefixFree(pieces: seq<Piece>)
  {
    forall e, f :: e in FieldNames(pieces) && f in FieldNames(pieces) && e != f ==> !HasPrefix(e, f)
  }

  /** No field's value contains '%'. */
  predicate PlainValues(pieces: seq<Piece>, entry: Doc, show: Doc -> string)
  {
    forall e :: e in FieldNames(pieces) ==> '%' !in FieldValue(entry, e, show)
  }

  /** What one piece contributes part way through printResult as
      written: a field named in `done` is replaced by its value, the others
      are still tokens. */
  function PieceText(p: Piece, done: set<string>, entry: Doc, show: Doc -> string): string
  {
    match p
    case Lit(t) => t
    case Field(e) => if e in done then FieldValue(entry, e, show) else "%" + e
  }

  /** The line part way through printResult as written. */
  function Partial(pieces: seq<Piece>, done: set<string>, entry: Doc, show: Doc -> string): string
  {
    if |pieces| == 0 then ""
    else PieceText(pieces[0], done, entry, show) + Partial(pieces[1..], done, entry, show)
  }

  /** The names of a list of tokens, without their '%'. */
  function TokenNames(toks: seq<string>): set<string>
  {
    if |toks| == 0 then {}
    else (if |toks[0]| > 0 then {toks[0][1..]} else {}) + TokenNames(toks[1..])
  }

  /** On a well-formed template whose field names are prefix-free and
      whose values hold no '%', printResult as written prints each token
      as its own field's value, as the single pass does. */
  lemma PrintResultAsWrittenSubstitutes(pieces: seq<Piece>, entry: Doc, show: Doc -> string)
    requires WellFormed(pieces) && PrefixFree(pieces) && PlainValues(pieces, entry, show)
    ensures PrintResultAsWritten(Render(pieces), entry, show) == Substituted(pieces, entry, show)
    ensures PrintResultAsWritten(Render(pieces), entry, show) == PrintResult(Render(pieces), entry, show)
  {
    TokensOfRender(pieces);
    FieldTokensNamed(pieces);
    PartialNone(pieces, entry, show);
    ReplaceEachPartial(pieces, {}, FieldTokens(pieces), entry, show);
    PartialAll(pieces, {} + TokenNames(FieldTokens(pieces)), entry, show);
    PrintResultSubstitutes(pieces, entry, show);
  }

  /** Replacing the tokens in turn replaces the fields they name. */
  lemma {:induction false} ReplaceEachPartial(pieces: seq<Piece>, done: set<string>, toks: seq<string>,
                                              entry: Doc, show: Doc -> string)
    requires WellFormed(pieces) && PrefixFree(pieces) && PlainValues(pieces, entry, show)
    requires forall k :: 0 <= k < |toks| ==> |toks[k]| >= 2 && toks[k][0] == '%' && toks[k][1..] in FieldNames(pieces)
    ensures ReplaceEach(Partial(pieces, done, entry, show), toks, entry, show) ==
            Partial(pieces, done + TokenNames(toks), entry, show)
    decreases |toks|
  {
    if |toks| == 0 {
      assert done + TokenNames(toks) == done;
    } else {
      var f := toks[0][1..];
      assert toks[0] == "%" + f;
      ReplaceStep(pieces, done, f, entry, show);
      ReplaceEachPartial(pieces, done + {f}, toks[1..], entry, show);
      assert done + {f} + TokenNames(toks[1..]) == done + TokenNames(toks);
    }
  }

  /** One replacement step: every occurrence of the token of `f` in the
      partial line is one of `f`'s own field pieces. */
  lemma {:induction false} ReplaceStep(pieces: seq<Piece>, done: set<string>, f: string, entry: Doc, show: Doc -> string)
    requires WellFormed(pieces) && PlainValues(pieces, entry, show)
    requires forall e :: e in FieldNames(pieces) && e != f ==> !HasPrefix(e, f) && !HasPrefix(f, e)
    ensures ReplaceAll(Partial(pieces, done, entry, show), "%" + f, FieldValue(entry, f, show)) ==
            Partial(pieces, done + {f}, entry, show)
    decreases |pieces|
  {
    if |pieces| > 0 {
      TailWellFormed(pieces);
      assert PieceFits(pieces, 0);
      assert FieldNames(pieces[1..]) <= FieldNames(pieces);
      ReplaceStep(pieces[1..], done, f, entry, show);
      if pieces[0].Field? {
        assert pieces[0].expr in FieldNames(pieces);
      }
      ReplaceHead(pieces[0], Partial(pieces[1..], done, entry, show), done, f, entry, show);
    }
  }

  /** The replacement passes over a literal, a field already replaced and
      the token of another field, and replaces the token of `f`. */
  lemma ReplaceHead(p: Piece, rest: string, done: set<string>, f: string, entry: Doc, show: Doc -> string)
    requires p.Lit? ==> '%' !in p.text
    requires p.Field? ==> (forall k :: 0 <= k < |p.expr| ==> TokenChar(p.expr[k])) &&
                          '%' !in FieldValue(entry, p.expr, show) &&
                          (p.expr != f ==> !HasPrefix(p.expr, f) && !HasPrefix(f, p.expr))
    ensures ReplaceAll(PieceText(p, done, entry, show) + rest, "%" + f, FieldValue(entry, f, show)) ==
            PieceText(p, done + {f}, entry, show) + ReplaceAll(rest, "%" + f, FieldValue(entry, f, show))
  {
    var pat, rep := "%" + f, FieldValue(entry, f, show);
    match p
    case Lit(t) =>
      ReplaceAfter(t, rest, pat, rep);
    case Field(e) =>
      if e in done {
        ReplaceAfter(FieldValue(entry, e, show), rest, pat, rep);
      } else if e == f {
        ReplaceOwnToken(f, rest, rep);
      } else {
        assert '%' !in e by {
          forall k | 0 <= k < |e| ensures e[k] != '%' {
            assert TokenChar(e[k]);
          }
        }
        ReplaceOtherToken(e, f, rest, rep);
      }
  }

  lemma ReplaceOwnToken(f: string, rest: string, rep: string)
    ensures ReplaceAll("%" + f + rest, "%" + f, rep) == rep + ReplaceAll(rest, "%" + f, rep)
  {
    var s := "%" + f + rest;
    assert HasPrefix(s, "%" + f);
    assert s[|"%" + f|..] == rest;
  }

  lemma ReplaceOtherToken(e: string, f: string, rest: string, rep: string)
    requires '%' !in e && !HasPrefix(e, f) && !HasPrefix(f, e)
    ensures ReplaceAll("%" + e + rest, "%" + f, rep) == "%" + e + ReplaceAll(rest, "%" + f, rep)
  {
    var s := "%" + e + rest;
    TokenMismatch(e, f, rest);
    assert s[1..] == e + rest;
    ReplaceAfter(e, rest, "%" + f, rep);
  }

  /** A token starts with the token of another name only when one name
      is a prefix of the other. */
  lemma TokenMismatch(e: string, f: string, rest: string)
    ensures HasPrefix("%" + e + rest, "%" + f) ==> HasPrefix(e, f) || HasPrefix(f, e)
  {
    var s := "%" + e + rest;
    if HasPrefix(s, "%" + f) {
      if |f| <= |e| {
        assert e[..|f|] == s[1..|f| + 1] == f;
      } else {
        assert f[..|e|] == s[1..|e| + 1] == e;
      }
    }
  }

  /** Before any replacement the partial line is the template. */
  lemma {:induction false} PartialNone(pieces: seq<Piece>, entry: Doc, show: Doc -> string)
    ensures Partial(pieces, {}, entry, show) == Render(pieces)
    decreases |pieces|
  {
    if |pieces| > 0 {
      PartialNone(pieces[1..], entry, show);
    }
  }

  /** Once every field is replaced the partial line is the substituted one. */
  lemma {:induction false} PartialAll(pieces: seq<Piece>, done: set<string>, entry: Doc, show: Doc -> string)
    requires FieldNames(pieces) <= done
    ensures Partial(pieces, done, entry, show) == Substituted(pieces, entry, show)
    decreases |pieces|
  {
    if |pieces| > 0 {
      assert FieldNames(pieces[1..]) <= FieldNames(pieces);
      PartialAll(pieces[1..], done, entry, show);
    }
  }

  /** The field tokens of a well-formed template are `%` and one of its
      field names each, and they name every field. */
  lemma {:induction false} FieldTokensNamed(pieces: seq<Piece>)
    requires WellFormed(pieces)
    ensures forall k :: 0 <= k < |FieldTokens(pieces)| ==>
              |FieldTokens(pieces)[k]| >= 2 && FieldTokens(pieces)[k][0] == '%' &&
              FieldTokens(pieces)[k][1..] in FieldNames(pieces)
    ensures FieldNames(pieces) <= TokenNames(FieldTokens(pieces))
    decreases |pieces|
  {
    if |pieces| > 0 {
      TailWellFormed(pieces);
      assert PieceFits(pieces, 0);
      FieldTokensNamed(pieces[1..]);
      var tail := FieldTokens(pieces[1..]);
      if pieces[0].Field? {
        var t := "%" + pieces[0].expr;
        assert FieldTokens(pieces) == [t] + tail;
        assert t[1..] == pieces[0].expr;
        assert TokenNames([t] + tail) == {t[1..]} + TokenNames(tail) by {
          assert ([t] + tail)[1..] == tail;
        }
      } else {
        assert FieldTokens(pieces) == [] + tail == tail;
      }
    }
  }

  /** Renders string leaves as themselves (enough for the example below). */
  function ShowText(d: Doc): string
  {
    if d.Str? then d.s else ""
  }

  /** The tokens of `%a %ab` are `%a` and `%ab`. */
  lemma TokensOfExample()
    ensures Tokens("%a %ab") == ["%a", "%ab"]
  {
    var f := "%a %ab";
    assert f[1..] == "a %ab" && f[..2] == "%a" && f[2..] == " %ab";
    assert TokenRun(" %ab") == 0;
    assert TokenRun(f[1..]) == 1;
    assert Tokens(" %ab") == Tokens("%ab");
    assert "%ab"[1..] == "ab" && "%ab"[..3] == "%ab" && "%ab"[3..] == "";
    assert TokenRun("b") == 1;
    assert TokenRun("ab") == 2;
    assert Tokens("%ab") == ["%ab"];
  }

  lemma ReplaceExample()
    ensures ReplaceAll("%a %ab", "%a", "x") == "x xb"
    ensures ReplaceAll("x xb", "%ab", "y") == "x xb"
  {
    assert "%a %ab"[2..] == " %ab";
    assert " %ab"[1..] == "%ab";
    assert "%ab"[2..] == "b";
    assert ReplaceAll("b", "%a", "x") == "b";
    assert ReplaceAll("%ab", "%a", "x") == "xb";
    assert ReplaceAll(" %ab", "%a", "x") == " xb";
    ReplaceAbsent("x xb", "%ab", "y");
  }

  /** The example entry: field "a" is "x", field "ab" is "y". */
  function ExampleEntry(): Doc
  {
    Obj(map["a" := Str("x"), "ab" := Str("y")])
  }

  lemma ExampleValues()
    ensures FieldValue(ExampleEntry(), "a", ShowText) == "x"
    ensures FieldValue(ExampleEntry(), "ab", ShowText) == "y"
  {
    assert HasValue(ExampleEntry(), "a") && HasValue(ExampleEntry(), "ab");
  }

  lemma ExamplePrinted()
    ensures PrintResult("%a %ab", ExampleEntry(), ShowText) == "x y"
  {
    ExampleValues();
    var f := "%a %ab";
    assert f[1..] == "a %ab" && f[1..2] == "a" && f[2..] == " %ab";
    assert TokenRun(" %ab") == 0;
    assert TokenRun(f[1..]) == 1;
    assert " %ab"[1..] == "%ab";
    assert "%ab"[1..] == "ab" && "%ab"[1..3] == "ab" && "%ab"[3..] == "";
    assert TokenRun("b") == 1;
    assert TokenRun("ab") == 2;
    assert PrintResult("%ab", ExampleEntry(), ShowText) == "y";
    assert PrintResult(" %ab", ExampleEntry(), ShowText) == " y";
  }

  lemma ExamplePrintedAsWritten()
    ensures PrintResultAsWritten("%a %ab", ExampleEntry(), ShowText) == "x xb"
  {
    ExampleValues();
    TokensOfExample();
    ReplaceExample();
    assert ["%a", "%ab"][1..] == ["%ab"] && ["%ab"][1..] == [];
    assert "%a"[1..] == "a" && "%ab"[1..] == "ab";
  }

  /** printResult as written substitutes a token inside a longer token that
      starts with it: with fields "a" = "x" and "ab" = "y", the template
      `%a %ab` becomes "x xb", while substituting each token once gives
      "x y". */
  lemma PrefixTokenClobbers()
    ensures PrintResultAsWritten("%a %ab", ExampleEntry(), ShowText) == "x xb"
    ensures PrintResult("%a %ab", ExampleEntry(), ShowText) == "x y"
  {
    ExamplePrintedAsWritten();
    ExamplePrinted();
  }
}
