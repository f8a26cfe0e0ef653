/** Type tags, address normalisation, the OSC-pattern-to-RegExp translation and
    the buffer accumulator (src/common/helpers.js, and the older src/helpers.js). */
module Helpers {
  import opened Wrappers
  import opened Utils

  // ---------------------------------------------------------------------------
  // Type tags

  /** `typeTag` as written: the checks run in the order int, float, string,
      Uint8Array, boolean, null, Infinity. Because `isFloat(Infinity)` holds,
      the final Infinity branch is never reached. */
  function TypeTagAsWritten(v: Value): (r: Result<char>)
    ensures r.Ok? ==> r.value in "ifsbTFN"
  {
    if IsInt(v) then Ok('i')
    else if IsFloat(v) then Ok('f')
    else if IsString(v) then Ok('s')
    else if IsBlob(v) then Ok('b')
    else if IsBoolean(v) then (if v.b then Ok('T') else Ok('F'))
    else if IsNull(v) then Ok('N')
    else if IsInfinity(v) then Ok('I')
    else Err("OSC typeTag() found unknown value type")
  }

  /** Infinity is tagged as a float by `typeTag` as written. */
  lemma InfinityTaggedFloat()
    ensures TypeTagAsWritten(Number(PosInf)) == Ok('f')
    ensures forall v :: TypeTagAsWritten(v) != Ok('I')
  {
  }

  /** `typeTag` with the Infinity test moved before the float test, so that
      Infinity gets the OSC 1.0 tag 'I' (Infinitum) its branch was written for. */
  function TypeTag(v: Value): (r: Result<char>)
    ensures r == Ok('i') <==> IsInt(v)
    ensures r == Ok('f') <==> IsFloat(v) && !IsInfinity(v)
    ensures r == Ok('s') <==> IsString(v)
    ensures r == Ok('b') <==> IsBlob(v)
    ensures r == Ok('T') <==> v == Boolean(true)
    ensures r == Ok('F') <==> v == Boolean(false)
    ensures r == Ok('N') <==> IsNull(v)
    ensures r == Ok('I') <==> IsInfinity(v)
    ensures r.Err? <==> !(IsNumber(v) || IsString(v) || IsBlob(v) || IsBoolean(v) || IsNull(v))
  {
    if IsInt(v) then Ok('i')
    else if IsInfinity(v) then Ok('I')
    else if IsFloat(v) then Ok('f')
    else if IsString(v) then Ok('s')
    else if IsBlob(v) then Ok('b')
    else if IsBoolean(v) then (if v.b then Ok('T') else Ok('F'))
    else if IsNull(v) then Ok('N')
    else Err("OSC typeTag() found unknown value type")
  }

  /** The two agree on everything but Infinity. */
  lemma TypeTagAgrees(v: Value)
    requires !IsInfinity(v)
    ensures TypeTag(v) == TypeTagAsWritten(v)
  {
  }

  /** `typeChar` (and the `typeTag` of the built files): int, float, string and
      Uint8Array only. */
  function TypeChar(v: Value): (r: Result<char>)
    ensures r == Ok('i') <==> IsInt(v)
    ensures r == Ok('f') <==> IsFloat(v)
    ensures r == Ok('s') <==> IsString(v)
    ensures r == Ok('b') <==> IsBlob(v)
    ensures r.Err? <==> !(IsNumber(v) || IsString(v) || IsBlob(v))
  {
    if IsInt(v) then Ok('i')
    else if IsFloat(v) then Ok('f')
    else if IsString(v) then Ok('s')
    else if IsBlob(v) then Ok('b')
    else Err("OSC Message found unknown value type.")
  }

  /** Where the older `typeChar` succeeds, `typeTag` as written gives the same tag. */
  lemma TypeCharRefinesTypeTag(v: Value)
    requires TypeChar(v).Ok?
    ensures TypeTagAsWritten(v) == TypeChar(v)
  {
  }

  /** The tagger a build's `Message` uses. src/message.js calls the `typeTag`
      of src/common/helpers.js, as written (`CommonAsWritten`) or with its
      Infinity test reachable (`CommonCorrected`). The `typeTag` of
      lib/osc.browser.js and dist/osc.js, and the `typeChar` of lib/osc.js,
      know only int, float, string and Uint8Array (`Basic`). */
  datatype Tagger = CommonAsWritten | CommonCorrected | Basic

  /** The tag `tagger` gives `v`. */
  function TagOf(tagger: Tagger, v: Value): (r: Result<char>)
    ensures r == Ok('i') <==> IsInt(v)
    ensures r == Ok('f') <==> IsFloat(v) && !(tagger.CommonCorrected? && IsInfinity(v))
    ensures r == Ok('s') <==> IsString(v)
    ensures r == Ok('b') <==> IsBlob(v)
    ensures r == Ok('T') <==> !tagger.Basic? && v == Boolean(true)
    ensures r == Ok('F') <==> !tagger.Basic? && v == Boolean(false)
    ensures r == Ok('N') <==> !tagger.Basic? && IsNull(v)
    ensures r == Ok('I') <==> tagger.CommonCorrected? && IsInfinity(v)
    ensures r.Ok? <==> IsNumber(v) || IsString(v) || IsBlob(v) || (!tagger.Basic? && (IsBoolean(v) || IsNull(v)))
  {
    match tagger
    case CommonAsWritten => TypeTagAsWritten(v)
    case CommonCorrected => TypeTag(v)
    case Basic => TypeChar(v)
  }

  // ---------------------------------------------------------------------------
  // Addresses

  /** `Array.prototype.join` on strings. */
  function Join(items: seq<string>, sep: string): string {
    if |items| == 0 then ""
    else if |items| == 1 then items[0]
    else items[0] + sep + Join(items[1..], sep)
  }

  /** `prepareAddress`: an array becomes '/' + join('/'); a string longer than one
      character loses one trailing '/', and then gains a leading '/' if it is
      still longer than one character and lacks one; anything else throws. */
  function PrepareAddress(v: Value): (r: Result<string>)
    ensures r.Ok? <==> v.Array? || v.Str?
    ensures v.Array? ==> r.value == "/" + Join(v.items, "/")
    ensures v.Str? && |v.s| <= 1 ==> r.value == v.s
    ensures v.Str? ==> |r.value| <= |v.s| + 1
  {
    if IsArray(v) then Ok("/" + Join(v.items, "/"))
    else if IsString(v) then
      var a := v.s;
      var a := if |a| > 1 && a[|a| - 1] == '/' then a[..|a| - 1] else a;
      var a := if |a| > 1 && a[0] != '/' then "/" + a else a;
      Ok(a)
    else Err("OSC prepareAddress() needs addresses of type array or string")
  }

  /** The string case of `prepareAddress`, stated by what it guarantees: exactly
      one trailing '/' goes, the rest of the string is kept, and a '/' is put in
      front when the kept part is longer than one character and lacks it. */
  lemma PrepareAddressString(s: string)
    requires |s| > 1
    ensures var r := PrepareAddress(Str(s)).value;
      var kept := if s[|s| - 1] == '/' then s[..|s| - 1] else s;
      (r == kept || r == "/" + kept)
      && (r == "/" + kept <==> |kept| > 1 && kept[0] != '/')
      && (|r| > 1 ==> r[0] == '/')
  {
  }

  /** Normalising an already normal address changes nothing: a string that starts
      with '/' and does not end with '/' is returned as is. */
  lemma PrepareAddressNormal(s: string)
    requires |s| > 1 && s[0] == '/' && s[|s| - 1] != '/'
    ensures PrepareAddress(Str(s)) == Ok(s)
  {
  }

  /** The three calls of the documentation comment, which all give '/test/path',
      and the root address, which is kept. */
  lemma PrepareAddressExamples()
    ensures PrepareAddress(Str("test/path")) == Ok("/test/path")
    ensures PrepareAddress(Str("/test/path/")) == Ok("/test/path")
    ensures PrepareAddress(Array(["test", "path"])) == Ok("/test/path")
    ensures PrepareAddress(Str("/")) == Ok("/")
  {
    assert "/" + "test/path" == "/test/path";
    assert "/test/path/"[..10] == "/test/path";
    assert Join(["test", "path"], "/") == "test/path";
  }

  /** Only one trailing '/' is removed, so normalisation is not idempotent. */
  lemma PrepareAddressNotIdempotent()
    ensures PrepareAddress(Str("a//")) == Ok("/a/")
    ensures PrepareAddress(Str("/a/")) == Ok("/a")
  {
    assert "a//"[..2] == "a/";
    assert "/" + "a/" == "/a/";
    assert "/a/"[..2] == "/a";
  }

  // ---------------------------------------------------------------------------
  // OSC address pattern to RegExp source

  /** `s.replace(/c/g, rep)` for a single character `c`. */
  function ReplaceChar(s: string, c: char, rep: string): string {
    if s == [] then []
    else (if s[0] == c then rep else [s[0]]) + ReplaceChar(s[1..], c, rep)
  }

  /** `s.replace(/\[!/g, '[^')`. */
  function ReplaceNegation(s: string): string {
    if |s| >= 2 && s[0] == '[' && s[1] == '!' then "[^" + ReplaceNegation(s[2..])
    else if s == [] then []
    else [s[0]] + ReplaceNegation(s[1..])
  }

  /** `prepareRegExPattern`: the nine global replacements, in the source's order. */
  function PrepareRegExPattern(v: Value): (r: Result<string>)
    ensures r.Ok? <==> v.Str?
  {
    if !IsString(v) then Err("OSC prepareRegExPattern() needs strings")
    else
      var p := ReplaceChar(v.s, '.', "\\.");
      var p := ReplaceChar(p, '(', "\\(");
      var p := ReplaceChar(p, ')', "\\)");
      var p := ReplaceChar(p, '{', "(");
      var p := ReplaceChar(p, '}', ")");
      var p := ReplaceChar(p, ',', "|");
      var p := ReplaceNegation(p);
      var p := ReplaceChar(p, '?', ".");
      var p := ReplaceChar(p, '*', ".*");
      Ok(p)
  }

  /** What one pattern character becomes. */
  function TranslateChar(c: char): string {
    match c
    case '.' => "\\."
    case '(' => "\\("
    case ')' => "\\)"
    case '{' => "("
    case '}' => ")"
    case ',' => "|"
    case '?' => "."
    case '*' => ".*"
    case _ => [c]
  }

  /** A single left-to-right reading of an OSC address pattern: '[!' opens a
      negated character class, the listed characters are translated, and every
      other character is copied. */
  function Translate(s: string): (r: string)
    ensures '{' !in r && '}' !in r && ',' !in r && '?' !in r
  {
    if |s| >= 2 && s[0] == '[' && s[1] == '!' then "[^" + Translate(s[2..])
    else if s == [] then []
    else TranslateChar(s[0]) + Translate(s[1..])
  }

  lemma {:induction false} ReplaceCharAppend(a: string, b: string, c: char, rep: string)
    ensures ReplaceChar(a + b, c, rep) == ReplaceChar(a, c, rep) + ReplaceChar(b, c, rep)
  {
    if a != [] {
      var h := if a[0] == c then rep else [a[0]];
      assert (a + b)[0] == a[0];
      assert (a + b)[1..] == a[1..] + b;
      assert ReplaceChar(a + b, c, rep) == h + ReplaceChar(a[1..] + b, c, rep);
      assert ReplaceChar(a, c, rep) == h + ReplaceChar(a[1..], c, rep);
      ReplaceCharAppend(a[1..], b, c, rep);
    } else {
      assert a + b == b;
    }
  }

  lemma ReplaceCharSingle(x: char, c: char, rep: string)
    ensures ReplaceChar([x], c, rep) == if x == c then rep else [x]
  {
    assert [x][1..] == [];
  }

  lemma {:induction false} ReplaceCharFixed(s: string, c: char, rep: string)
    requires c !in s
    ensures ReplaceChar(s, c, rep) == s
  {
    if s != [] {
      ReplaceCharFixed(s[1..], c, rep);
    }
  }

  /** A prefix without '[' passes through the negation replacement unchanged. */
  lemma {:induction false} ReplaceNegationPrefix(a: string, b: string)
    requires '[' !in a
    ensures ReplaceNegation(a + b) == a + ReplaceNegation(b)
  {
    if a != [] {
      assert (a + b)[0] == a[0];
      assert (a + b)[1..] == a[1..] + b;
      assert ReplaceNegation(a + b) == [a[0]] + ReplaceNegation(a[1..] + b);
      ReplaceNegationPrefix(a[1..], b);
    } else {
      assert a + b == b;
    }
  }

  /** The six replacements before '[!'. */
  function Escape(s: string): string {
    var p := ReplaceChar(s, '.', "\\.");
    var p := ReplaceChar(p, '(', "\\(");
    var p := ReplaceChar(p, ')', "\\)");
    var p := ReplaceChar(p, '{', "(");
    var p := ReplaceChar(p, '}', ")");
    ReplaceChar(p, ',', "|")
  }

  /** The two replacements after '[!'. */
  function Wildcards(s: string): string {
    ReplaceChar(ReplaceChar(s, '?', "."), '*', ".*")
  }

  lemma PrepareRegExPatternStages(s: string)
    ensures PrepareRegExPattern(Str(s)) == Ok(Wildcards(ReplaceNegation(Escape(s))))
  {
  }

  lemma EscapeAppend(a: string, b: string)
    ensures Escape(a + b) == Escape(a) + Escape(b)
  {
    var p1, q1 := ReplaceChar(a, '.', "\\."), ReplaceChar(b, '.', "\\.");
    ReplaceCharAppend(a, b, '.', "\\.");
    var p2, q2 := ReplaceChar(p1, '(', "\\("), ReplaceChar(q1, '(', "\\(");
    ReplaceCharAppend(p1, q1, '(', "\\(");
    var p3, q3 := ReplaceChar(p2, ')', "\\)"), ReplaceChar(q2, ')', "\\)");
    ReplaceCharAppend(p2, q2, ')', "\\)");
    var p4, q4 := ReplaceChar(p3, '{', "("), ReplaceChar(q3, '{', "(");
    ReplaceCharAppend(p3, q3, '{', "(");
    var p5, q5 := ReplaceChar(p4, '}', ")"), ReplaceChar(q4, '}', ")");
    ReplaceCharAppend(p4, q4, '}', ")");
    ReplaceCharAppend(p5, q5, ',', "|");
  }

  lemma WildcardsAppend(a: string, b: string)
    ensures Wildcards(a + b) == Wildcards(a) + Wildcards(b)
  {
    ReplaceCharAppend(a, b, '?', ".");
    ReplaceCharAppend(ReplaceChar(a, '?', "."), ReplaceChar(b, '?', "."), '*', ".*");
  }

  /** One replacement step on a single character that is either still untouched
      or already translated (and then holds no `d`). */
  lemma ReplaceStep(c: char, d: char, rep: string, p: string)
    requires p == [c] || (p == TranslateChar(c) && d !in p)
    requires c == d ==> p == [c] && rep == TranslateChar(c)
    ensures ReplaceChar(p, d, rep) == if c == d then TranslateChar(c) else p
  {
    if p == [c] {
      ReplaceCharSingle(c, d, rep);
    } else {
      ReplaceCharFixed(p, d, rep);
    }
  }

  lemma EscapeChar(c: char)
    ensures Escape([c]) == if c == '?' || c == '*' then [c] else TranslateChar(c)
  {
    var p1 := ReplaceChar([c], '.', "\\.");
    ReplaceStep(c, '.', "\\.", [c]);
    var p2 := ReplaceChar(p1, '(', "\\(");
    ReplaceStep(c, '(', "\\(", p1);
    var p3 := ReplaceChar(p2, ')', "\\)");
    ReplaceStep(c, ')', "\\)", p2);
    var p4 := ReplaceChar(p3, '{', "(");
    ReplaceStep(c, '{', "(", p3);
    var p5 := ReplaceChar(p4, '}', ")");
    ReplaceStep(c, '}', ")", p4);
    ReplaceStep(c, ',', "|", p5);
  }

  lemma EscapeCharShape(c: char)
    ensures '[' in Escape([c]) <==> c == '['
    ensures |Escape([c])| > 0 && (Escape([c])[0] == '!' <==> c == '!')
    ensures c != '?' && c != '*' ==> '?' !in Escape([c]) && '*' !in Escape([c])
  {
    EscapeChar(c);
    if c == '.' {
      assert Escape([c]) == "\\.";
    } else if c == '(' {
      assert Escape([c]) == "\\(";
    } else if c == ')' {
      assert Escape([c]) == "\\)";
    } else if c == '{' {
      assert Escape([c]) == "(";
    } else if c == '}' {
      assert Escape([c]) == ")";
    } else if c == ',' {
      assert Escape([c]) == "|";
    } else {
      assert Escape([c]) == [c];
    }
  }

  lemma WildcardsChar(c: char)
    ensures Wildcards([c]) == if c == '?' || c == '*' then TranslateChar(c) else [c]
  {
    ReplaceCharSingle(c, '?', ".");
    if c == '?' {
      ReplaceCharFixed(".", '*', ".*");
    } else {
      ReplaceCharSingle(c, '*', ".*");
    }
  }

  lemma WildcardsFixed(s: string)
    requires '?' !in s && '*' !in s
    ensures Wildcards(s) == s
  {
    ReplaceCharFixed(s, '?', ".");
    ReplaceCharFixed(s, '*', ".*");
  }

  lemma EscapeEmpty()
    ensures Escape([]) == []
  {
  }

  lemma EscapeCons(s: string)
    requires s != []
    ensures Escape(s) == Escape([s[0]]) + Escape(s[1..])
  {
    assert s == [s[0]] + s[1..];
    EscapeAppend([s[0]], s[1..]);
  }

  lemma ReplaceNegationHead(e: string)
    ensures ReplaceNegation("[!" + e) == "[^" + ReplaceNegation(e)
  {
    var x := "[!" + e;
    assert |x| >= 2 && x[0] == '[' && x[1] == '!';
    assert x[2..] == e;
  }

  lemma EscapeNegationHead(s: string)
    requires |s| >= 2 && s[0] == '[' && s[1] == '!'
    ensures Escape(s) == "[!" + Escape(s[2..])
  {
    assert s == "[!" + s[2..];
    EscapeAppend("[!", s[2..]);
    assert "[!" == ['['] + ['!'];
    EscapeAppend(['['], ['!']);
    EscapeChar('[');
    EscapeChar('!');
  }

  lemma WildcardsNegationHead(e: string)
    ensures Wildcards("[^" + e) == "[^" + Wildcards(e)
  {
    WildcardsAppend("[^", e);
    WildcardsFixed("[^");
  }

  /** Induction step of `ChainIsTranslate` for a leading '[!'. */
  lemma ChainNegation(s: string)
    requires |s| >= 2 && s[0] == '[' && s[1] == '!'
    requires Wildcards(ReplaceNegation(Escape(s[2..]))) == Translate(s[2..])
    ensures Wildcards(ReplaceNegation(Escape(s))) == Translate(s)
  {
    var e := Escape(s[2..]);
    EscapeNegationHead(s);
    ReplaceNegationHead(e);
    WildcardsNegationHead(ReplaceNegation(e));
  }

  /** Induction step of `ChainIsTranslate` for a '[' not followed by '!'. */
  lemma ChainBracket(s: string)
    requires |s| >= 1 && s[0] == '[' && !(|s| >= 2 && s[1] == '!')
    requires Wildcards(ReplaceNegation(Escape(s[1..]))) == Translate(s[1..])
    ensures Wildcards(ReplaceNegation(Escape(s))) == Translate(s)
  {
    EscapeCons(s);
    EscapeChar('[');
    var e := Escape(s[1..]);
    assert Escape(s) == "[" + e;
    if |s| >= 2 {
      EscapeCons(s[1..]);
      EscapeCharShape(s[1]);
      assert e[0] != '!';
    } else {
      EscapeEmpty();
    }
    assert ("[" + e)[1..] == e;
    assert ReplaceNegation(Escape(s)) == "[" + ReplaceNegation(e);
    WildcardsAppend("[", ReplaceNegation(e));
    WildcardsFixed("[");
  }

  /** Induction step of `ChainIsTranslate` for any other first character. */
  lemma ChainOther(s: string)
    requires |s| >= 1 && s[0] != '['
    requires Wildcards(ReplaceNegation(Escape(s[1..]))) == Translate(s[1..])
    ensures Wildcards(ReplaceNegation(Escape(s))) == Translate(s)
  {
    EscapeCons(s);
    var h := Escape([s[0]]);
    EscapeCharShape(s[0]);
    ReplaceNegationPrefix(h, Escape(s[1..]));
    WildcardsAppend(h, ReplaceNegation(Escape(s[1..])));
    EscapeChar(s[0]);
    if s[0] == '?' || s[0] == '*' {
      WildcardsChar(s[0]);
    } else {
      WildcardsFixed(h);
    }
  }

  /** The nine replacements in sequence compute the single-pass translation. */
  lemma {:induction false} ChainIsTranslate(s: string)
    ensures Wildcards(ReplaceNegation(Escape(s))) == Translate(s)
    decreases |s|
  {
    if s == [] {
      EscapeEmpty();
    } else if |s| >= 2 && s[0] == '[' && s[1] == '!' {
      ChainIsTranslate(s[2..]);
      ChainNegation(s);
    } else if s[0] == '[' {
      ChainIsTranslate(s[1..]);
      ChainBracket(s);
    } else {
      ChainIsTranslate(s[1..]);
      ChainOther(s);
    }
  }

  /** `prepareRegExPattern` on a string is the single-pass translation: it escapes
      '.', '(' and ')', turns '{', '}' and ',' into an alternation group, '[!' into
      '[^', '?' into '.', '*' into '.*', copies everything else, and leaves no
      '{', '}', ',' or '?' in its output. */
  lemma PrepareRegExPatternTranslates(s: string)
    ensures PrepareRegExPattern(Str(s)) == Ok(Translate(s))
    ensures var p := PrepareRegExPattern(Str(s)).value;
      '{' !in p && '}' !in p && ',' !in p && '?' !in p
  {
    PrepareRegExPatternStages(s);
    ChainIsTranslate(s);
  }

  /** Characters outside the OSC pattern syntax are copied unchanged. */
  lemma {:induction false} TranslatePlain(s: string)
    requires forall i :: 0 <= i < |s| ==> s[i] !in ".(){},?*["
    ensures Translate(s) == s
  {
    if s != [] {
      TranslatePlain(s[1..]);
    }
  }

  // ---------------------------------------------------------------------------
  // The buffer accumulator

  /** The buffers joined in order. */
  function Concat(bufs: seq<seq<Byte>>): seq<Byte> {
    if bufs == [] then [] else Concat(bufs[..|bufs| - 1]) + bufs[|bufs| - 1]
  }

  lemma {:induction false} ConcatAppend(a: seq<seq<Byte>>, b: seq<seq<Byte>>)
    ensures Concat(a + b) == Concat(a) + Concat(b)
    decreases |b|
  {
    if b != [] {
      assert (a + b)[..|a + b| - 1] == a + b[..|b| - 1];
      assert (a + b)[|a + b| - 1] == b[|b| - 1];
      ConcatAppend(a, b[..|b| - 1]);
    } else {
      assert a + b == a;
    }
  }

  /** Extending a prefix of `bufs` by one buffer extends its concatenation by
      that buffer, and stays within the whole concatenation. */
  lemma ConcatStep(bufs: seq<seq<Byte>>, i: nat)
    requires i < |bufs|
    ensures Concat(bufs[..i + 1]) == Concat(bufs[..i]) + bufs[i]
    ensures |Concat(bufs[..i + 1])| <= |Concat(bufs)|
  {
    assert bufs[..i + 1][..i] == bufs[..i];
    assert bufs == bufs[..i + 1] + bufs[i + 1..];
    ConcatAppend(bufs[..i + 1], bufs[i + 1..]);
  }

  lemma ConcatSnoc(bufs: seq<seq<Byte>>, b: seq<Byte>)
    ensures Concat(bufs + [b]) == Concat(bufs) + b
  {
    ConcatAppend(bufs, [b]);
    ConcatSingle(b);
  }

  lemma ConcatSingle(b: seq<Byte>)
    ensures Concat([b]) == b
  {
    var empty: seq<seq<Byte>> := [];
    assert [b][..0] == empty;
  }

  /** What `EncodeHelper.add` receives: a constant that needs no payload, or an
      atomic, given by the outcome of its `pack()`. */
  datatype Item = Plain(v: Value) | Packable(packed: Result<seq<Byte>>)

  class EncodeHelper {
    var data: seq<seq<Byte>>
    var byteLength: int

    ghost predicate Valid()
      reads this
    {
      byteLength == |Concat(data)|
    }

    constructor ()
      ensures Valid() && data == [] && byteLength == 0
    {
      data := [];
      byteLength := 0;
    }

    /** `add` of src/common/helpers.js: booleans, Infinity and null are skipped;
        anything else is packed and appended (a plain value has no `pack`). */
    method Add(item: Item) returns (r: Result<()>)
      requires Valid()
      modifies this
      ensures Valid()
      ensures r.Err? <==> (item.Plain? && !(IsBoolean(item.v) || IsInfinity(item.v) || IsNull(item.v)))
                          || (item.Packable? && item.packed.Err?)
      ensures data == if item.Packable? && item.packed.Ok? then old(data) + [item.packed.value] else old(data)
      ensures byteLength == old(byteLength) + |Concat(data)| - |Concat(old(data))|
    {
      match item
      case Plain(v) =>
        if IsBoolean(v) || IsInfinity(v) || IsNull(v) {
          return Ok(());
        }
        return Err(TypeError);
      case Packable(packed) =>
        r := AddPacked(packed);
    }

    /** `add` of src/helpers.js (through `encode()`) and of the built files
        (through `pack()`): append whatever the item packs to. */
    method AddPacked(packed: Result<seq<Byte>>) returns (r: Result<()>)
      requires Valid()
      modifies this
      ensures Valid()
      ensures r.Err? <==> packed.Err?
      ensures r.Err? ==> r.error == packed.error
      ensures data == if packed.Ok? then old(data) + [packed.value] else old(data)
      ensures byteLength == old(byteLength) + if packed.Ok? then |packed.value| else 0
    {
      if packed.Err? {
        return Err(packed.error);
      }
      var buffer := packed.value;
      ConcatAppend(data, [buffer]);
      ConcatSingle(buffer);
      byteLength := byteLength + |buffer|;
      data := data + [buffer];
      return Ok(());
    }

    /** `merge`: copies every stored buffer into one array of `byteLength` bytes
        at a running offset; the result is the buffers in insertion order. */
    method Merge() returns (result: seq<Byte>)
      requires Valid()
      ensures result == Concat(data)
      ensures |result| == byteLength
    {
      var buffer := new Byte[byteLength];
      var offset := 0;
      for i := 0 to |data|
        invariant offset == |Concat(data[..i])| <= buffer.Length
        invariant buffer[..offset] == Concat(data[..i])
      {
        var chunk := data[i];
        ConcatStep(data, i);
        for j := 0 to |chunk|
          invariant buffer[..offset + j] == Concat(data[..i]) + chunk[..j]
        {
          buffer[offset + j] := chunk[j];
        }
        offset := offset + |chunk|;
      }
      assert data[..|data|] == data;
      result := buffer[..];
    }
  }

  /** The helper's test: two four-byte items give eight bytes, in order;
      the boolean and the null in between add nothing. */
  method EncodeHelperExample() returns (merged: seq<Byte>)
    ensures merged == [0, 0, 0, 1, 0, 0, 0, 2]
  {
    var first: seq<Byte> := [0, 0, 0, 1];
    var second: seq<Byte> := [0, 0, 0, 2];
    var helper := new EncodeHelper();
    var _ := helper.Add(Plain(Boolean(true)));
    assert helper.data == [];
    var _ := helper.Add(Packable(Ok(first)));
    assert helper.data == [first];
    var _ := helper.Add(Plain(Null));
    var _ := helper.Add(Packable(Ok(second)));
    assert helper.data == [first] + [second];
    ConcatAppend([first], [second]);
    ConcatSingle(first);
    ConcatSingle(second);
    merged := helper.Merge();
    assert helper.byteLength == 8;
  }
}
