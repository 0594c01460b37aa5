/**
  Feature extraction (`extract_features_from_code`, run.py:9-46).

  The Python parser and tokenizer are not part of the model: their output is
  the input here. A parse is either a syntax error or the sequence of nodes
  that `ast.walk` visits, in that order; the token stream is the sequence the
  tokenizer yields, which may stop with a tokenizer error.
*/
module Extraction {
  import opened Wrappers
  import opened Strings

  /** The value held by an `ast.Constant`: a `str`, or anything else (a number, bytes, `None`, ...). */
  datatype ConstantValue = Str(s: string) | NonStr

  /** An assignment target: a bare `ast.Name`, or a compound one (attribute, subscript, tuple or list). */
  datatype Target = Name(id: string) | CompoundTarget

  /** The expression of an expression statement: a constant, or any other expression. */
  datatype Operand = ConstantOperand(value: ConstantValue) | OtherOperand

  /** The node kinds the extractor tells apart; every other node kind is `OtherNode`. */
  datatype Node =
    | FunctionDef(name: string, docstring: Option<string>)  // the docstring as `ast.get_docstring` returns it
    | Assign(targets: seq<Target>)
    | Expr(operand: Operand)
    | Constant(value: ConstantValue)
    | OtherNode

  /** `ast.parse`: a syntax error, or the nodes of the tree in `ast.walk` order. */
  datatype Parse = SyntaxError | Parsed(walk: seq<Node>)

  datatype TokenKind = CommentToken | OtherToken
  datatype Token = Token(kind: TokenKind, text: string)

  /** One step of `tokenize.generate_tokens`: a token, or the `TokenError` it raises. */
  datatype Lexed = Lexeme(token: Token) | TokenError

  /** One entry of `features["functions"]`. */
  datatype FunctionInfo = FunctionInfo(name: string, doc: string)

  /** The `features` dict: its four lists. */
  datatype Features = Features(
    functions: seq<FunctionInfo>,
    variables: seq<string>,
    strings: seq<string>,
    comments: seq<string>)

  const NoFeatures := Features([], [], [], [])

  /**
    The `doc` of a function entry: the first line of the docstring, or `""`
    when there is no docstring or it is empty.
  */
  function DocSummary(docstring: Option<string>): (doc: string)
    ensures docstring == None || docstring == Some("") ==> doc == ""
    ensures docstring.Some? ==> doc <= docstring.value
    ensures forall k :: 0 <= k < |doc| ==> !IsLineBreak(doc[k])
    ensures docstring.Some? && |doc| < |docstring.value| ==> IsLineBreak(docstring.value[|doc|])
  {
    if docstring.Some? && docstring.value != "" then FirstLine(docstring.value) else ""
  }

  /** The ids of the `Name` targets of an assignment, in target order, repeats kept. */
  function NameIds(targets: seq<Target>): seq<string> {
    if targets == [] then []
    else
      var last := targets[|targets| - 1];
      NameIds(targets[..|targets| - 1]) + (if last.Name? then [last.id] else [])
  }

  /**
    An assignment records the id of each of its `Name` targets and nothing
    else: at most one entry per target, and an id is recorded exactly when
    some target is that name.
  */
  lemma {:induction false} NameIdsOnlyNames(targets: seq<Target>)
    ensures |NameIds(targets)| <= |targets|
    ensures forall id :: id in NameIds(targets) <==> Name(id) in targets
  {
    if targets != [] {
      var n := |targets| - 1;
      assert targets == targets[..n] + [targets[n]];
      NameIdsOnlyNames(targets[..n]);
    }
  }

  /** What one node adds to `functions`. */
  function NodeFunctions(n: Node): seq<FunctionInfo> {
    if n.FunctionDef? then [FunctionInfo(n.name, DocSummary(n.docstring))] else []
  }

  /** What one node adds to `variables`. */
  function NodeVariables(n: Node): seq<string> {
    if n.Assign? then NameIds(n.targets) else []
  }

  /**
    What one node adds to `strings`: the string of a string expression
    statement, and the string of a string constant. The second is what
    run.py:43-44 evidently intends; see `StringsAsWritten` for what it does.
  */
  function NodeStrings(n: Node): seq<string> {
    if n.Expr? && n.operand.ConstantOperand? && n.operand.value.Str? then [n.operand.value.s]
    else if n.Constant? && n.value.Str? then [n.value.s]
    else []
  }

  function FunctionsOf(walk: seq<Node>): seq<FunctionInfo> {
    if walk == [] then [] else FunctionsOf(walk[..|walk| - 1]) + NodeFunctions(walk[|walk| - 1])
  }

  function VariablesOf(walk: seq<Node>): seq<string> {
    if walk == [] then [] else VariablesOf(walk[..|walk| - 1]) + NodeVariables(walk[|walk| - 1])
  }

  function StringsOf(walk: seq<Node>): seq<string> {
    if walk == [] then [] else StringsOf(walk[..|walk| - 1]) + NodeStrings(walk[|walk| - 1])
  }

  /** The stripped text of every comment token before the first tokenizer error. */
  function CommentsOf(tokens: seq<Lexed>): seq<string> {
    if tokens == [] then []
    else
      match tokens[0]
      case TokenError => []
      case Lexeme(t) =>
        (if t.kind == CommentToken then [Strip(t.text)] else []) + CommentsOf(tokens[1..])
  }

  /** The features extracted from a parse and its token stream. */
  function Extract(parse: Parse, tokens: seq<Lexed>): Features {
    match parse
    case SyntaxError => NoFeatures
    case Parsed(walk) =>
      Features(FunctionsOf(walk), VariablesOf(walk), StringsOf(walk), CommentsOf(tokens))
  }

  /** The comment-gathering loop: stripped COMMENT tokens in order, up to the
      first TokenError, which ends the loop and keeps what was gathered. */
  method CollectComments(tokens: seq<Lexed>) returns (comments: seq<string>)
    ensures comments == CommentsOf(tokens)
  {
    comments := [];
    var i := 0;
    while i < |tokens| && tokens[i].Lexeme?
      invariant 0 <= i <= |tokens|
      invariant comments + CommentsOf(tokens[i..]) == CommentsOf(tokens)
    {
      var token := tokens[i].token;
      var rest := tokens[i..];
      assert rest[0] == Lexeme(token) && rest[1..] == tokens[i + 1..];
      assert CommentsOf(rest) == (if token.kind == CommentToken then [Strip(token.text)] else []) + CommentsOf(tokens[i + 1..]);
      if token.kind == CommentToken {
        comments := comments + [Strip(token.text)];
      }
      i := i + 1;
    }
    if i < |tokens| {
      assert tokens[i..][0] == TokenError;
    } else {
      assert tokens[i..] == [];
    }
    assert comments == CommentsOf(tokens);
  }

  /** One more target adds its id at the end when it is a `Name`. */
  lemma NameIdsSnoc(targets: seq<Target>, k: nat)
    requires k < |targets|
    ensures NameIds(targets[..k + 1])
      == NameIds(targets[..k]) + (if targets[k].Name? then [targets[k].id] else [])
  {
    var upTo := targets[..k + 1];
    assert upTo[..|upTo| - 1] == targets[..k];
  }

  /**
    `extract_features_from_code`: a syntax error gives the empty feature set;
    otherwise the comment tokens are collected until the tokenizer stops, and
    then every node of the walk is classified by the `if/elif` chain.
  */
  method ExtractFeatures(parse: Parse, tokens: seq<Lexed>) returns (features: Features)
    ensures features == Extract(parse, tokens)
    ensures parse.SyntaxError? ==> features == NoFeatures
  {
    if parse.SyntaxError? {
      return NoFeatures;
    }
    var walk := parse.walk;
    var functions: seq<FunctionInfo> := [];
    var variables: seq<string> := [];
    var strings: seq<string> := [];
    // The token loop (a try block in the source).
    var comments := CollectComments(tokens);

    // The node loop.
    var j := 0;
    while j < |walk|
      invariant 0 <= j <= |walk|
      invariant functions == FunctionsOf(walk[..j])
      invariant variables == VariablesOf(walk[..j])
      invariant strings == StringsOf(walk[..j])
    {
      var node := walk[j];
      var upTo := walk[..j + 1];
      assert upTo[..|upTo| - 1] == walk[..j];
      assert upTo[|upTo| - 1] == node;
      assert FunctionsOf(upTo) == functions + NodeFunctions(node);
      assert VariablesOf(upTo) == variables + NodeVariables(node);
      assert StringsOf(upTo) == strings + NodeStrings(node);
      if node.FunctionDef? {
        assert NodeVariables(node) == [] && NodeStrings(node) == [];
        functions := functions + [FunctionInfo(node.name, DocSummary(node.docstring))];
      } else if node.Assign? {
        assert NodeFunctions(node) == [] && NodeStrings(node) == [];
        // The ids are gathered first and then appended, which leaves the
        // same list as appending each one to `variables` directly.
        var ids: seq<string> := [];
        var k := 0;
        assert node.targets[..0] == [];
        while k < |node.targets|
          invariant 0 <= k <= |node.targets|
          invariant ids == NameIds(node.targets[..k])
        {
          NameIdsSnoc(node.targets, k);
          if node.targets[k].Name? {
            ids := ids + [node.targets[k].id];
          }
          k := k + 1;
        }
        assert node.targets[..k] == node.targets;
        variables := variables + ids;
      } else if node.Expr? && node.operand.ConstantOperand? && node.operand.value.Str? {
        assert NodeFunctions(node) == [] && NodeVariables(node) == [];
        strings := strings + [node.operand.value.s];
      } else if node.Constant? && node.value.Str? {
        assert NodeFunctions(node) == [] && NodeVariables(node) == [];
        // run.py:44 appends `node.value.value`, an attribute a `str` does not
        // have; the model appends the literal's string, as intended.
        strings := strings + [node.value.s];
      } else {
        assert NodeFunctions(node) == [] && NodeVariables(node) == [] && NodeStrings(node) == [];
      }
      j := j + 1;
    }
    assert walk[..j] == walk;
    features := Features(functions, variables, strings, comments);
  }

  lemma {:induction false} FunctionsConcat(a: seq<Node>, b: seq<Node>)
    ensures FunctionsOf(a + b) == FunctionsOf(a) + FunctionsOf(b)
  {
    if b == [] {
      assert a + b == a;
    } else {
      var n := |b| - 1;
      var ab := a + b;
      assert ab[..|ab| - 1] == a + b[..n];
      assert ab[|ab| - 1] == b[n];
      FunctionsConcat(a, b[..n]);
      assert FunctionsOf(ab) == FunctionsOf(a + b[..n]) + NodeFunctions(b[n]);
      assert FunctionsOf(b) == FunctionsOf(b[..n]) + NodeFunctions(b[n]);
    }
  }

  lemma {:induction false} VariablesConcat(a: seq<Node>, b: seq<Node>)
    ensures VariablesOf(a + b) == VariablesOf(a) + VariablesOf(b)
  {
    if b == [] {
      assert a + b == a;
    } else {
      var n := |b| - 1;
      var ab := a + b;
      assert ab[..|ab| - 1] == a + b[..n];
      assert ab[|ab| - 1] == b[n];
      VariablesConcat(a, b[..n]);
      assert VariablesOf(ab) == VariablesOf(a + b[..n]) + NodeVariables(b[n]);
      assert VariablesOf(b) == VariablesOf(b[..n]) + NodeVariables(b[n]);
    }
  }

  lemma {:induction false} StringsConcat(a: seq<Node>, b: seq<Node>)
    ensures StringsOf(a + b) == StringsOf(a) + StringsOf(b)
  {
    if b == [] {
      assert a + b == a;
    } else {
      var n := |b| - 1;
      var ab := a + b;
      assert ab[..|ab| - 1] == a + b[..n];
      assert ab[|ab| - 1] == b[n];
      StringsConcat(a, b[..n]);
      assert StringsOf(ab) == StringsOf(a + b[..n]) + NodeStrings(b[n]);
      assert StringsOf(b) == StringsOf(b[..n]) + NodeStrings(b[n]);
    }
  }

  /**
    Walking `a` and then `b` extends each list by what `b` adds, after what
    `a` added: the lists keep walk order.
  */
  lemma WalkConcat(a: seq<Node>, b: seq<Node>, tokens: seq<Lexed>)
    ensures var ea, eb, eab := Extract(Parsed(a), tokens), Extract(Parsed(b), tokens), Extract(Parsed(a + b), tokens);
      && eab.functions == ea.functions + eb.functions
      && eab.variables == ea.variables + eb.variables
      && eab.strings == ea.strings + eb.strings
      && eab.comments == ea.comments
  {
    FunctionsConcat(a, b);
    VariablesConcat(a, b);
    StringsConcat(a, b);
  }

  /**
    One more node changes at most one list, at its end: a `FunctionDef` adds
    exactly one function entry, an `Assign` its `Name` targets, a string
    statement or string constant its string, and any other node nothing.
  */
  lemma NodeStep(prefix: seq<Node>, n: Node, tokens: seq<Lexed>)
    ensures var before, after := Extract(Parsed(prefix), tokens), Extract(Parsed(prefix + [n]), tokens);
      && (n.FunctionDef? ==> after == before.(functions := before.functions + [FunctionInfo(n.name, DocSummary(n.docstring))]))
      && (n.Assign? ==> after == before.(variables := before.variables + NameIds(n.targets)))
      && (n.Expr? && n.operand.ConstantOperand? && n.operand.value.Str? ==>
            after == before.(strings := before.strings + [n.operand.value.s]))
      && (n.Constant? && n.value.Str? ==> after == before.(strings := before.strings + [n.value.s]))
      && (n.OtherNode? || (n.Expr? && !(n.operand.ConstantOperand? && n.operand.value.Str?))
          || (n.Constant? && !n.value.Str?)
          ==> after == before)
  {
    assert (prefix + [n])[..|prefix|] == prefix;
  }

  /**
    A string expression statement is recorded twice: once as the statement,
    once more when the walk reaches its constant.
  */
  lemma StandaloneStringTwice(pre: seq<Node>, mid: seq<Node>, post: seq<Node>, s: string)
    ensures var walk := pre + [Expr(ConstantOperand(Str(s)))] + mid + [Constant(Str(s))] + post;
      StringsOf(walk) == StringsOf(pre) + [s] + StringsOf(mid) + [s] + StringsOf(post)
      && multiset(StringsOf(walk))[s] >= 2
  {
    var e, c := Expr(ConstantOperand(Str(s))), Constant(Str(s));
    StringsConcat(pre, [e]);
    StringsConcat(pre + [e], mid);
    StringsConcat(pre + [e] + mid, [c]);
    StringsConcat(pre + [e] + mid + [c], post);
    assert StringsOf([e]) == [s];
    assert StringsOf([c]) == [s];
  }

  /** A tokenizer error ends comment collection: nothing after it is seen. */
  lemma {:induction false} CommentsStopAtError(before: seq<Lexed>, after: seq<Lexed>)
    ensures CommentsOf(before + [TokenError] + after) == CommentsOf(before)
  {
    if before != [] {
      assert (before + [TokenError] + after)[1..] == before[1..] + [TokenError] + after;
      CommentsStopAtError(before[1..], after);
    }
  }

  /** Source whose tokens hold no comment yields no comments. */
  lemma {:induction false} NoCommentTokens(tokens: seq<Lexed>)
    requires forall i :: 0 <= i < |tokens| && tokens[i].Lexeme? ==> tokens[i].token.kind != CommentToken
    ensures CommentsOf(tokens) == []
  {
    if tokens != [] && tokens[0].Lexeme? {
      assert forall i :: 0 <= i < |tokens[1..]| ==> tokens[1..][i] == tokens[i + 1];
      NoCommentTokens(tokens[1..]);
    }
  }

  /**
    A tokenizer error loses only the comments after it: the node walk still
    yields all its functions, variables and strings.
  */
  lemma TokenErrorKeepsWalk(walk: seq<Node>, before: seq<Lexed>, after: seq<Lexed>)
    ensures Extract(Parsed(walk), before + [TokenError] + after)
      == Features(FunctionsOf(walk), VariablesOf(walk), StringsOf(walk), CommentsOf(before))
  {
    CommentsStopAtError(before, after);
  }

  /**
    Each collected comment is stripped of surrounding whitespace, and keeps
    its `#` marker when the token text begins with one.
  */
  lemma {:induction false} CommentsStrippedWithMarker(tokens: seq<Lexed>)
    requires forall i ::
      0 <= i < |tokens| && tokens[i].Lexeme? && tokens[i].token.kind == CommentToken
      ==> tokens[i].token.text != [] && tokens[i].token.text[0] == '#'
    ensures forall c :: c in CommentsOf(tokens) ==> c != [] && c[0] == '#' && !IsSpace(c[|c| - 1])
  {
    if tokens != [] && tokens[0].Lexeme? {
      assert forall i :: 0 <= i < |tokens[1..]| ==> tokens[1..][i] == tokens[i + 1];
      CommentsStrippedWithMarker(tokens[1..]);
      StripEdges(tokens[0].token.text);
    }
  }

  /**
    The nodes `ast.walk` visits for the program of tests/test_inference.py:5-9,
    with its names left open: `def <fn>(): pass` and `<v> = "<lit>"` under a
    comment line. They are the module, the function, the assignment, the
    function's arguments, `pass`, the target name, the string constant and
    the target's store context.
  */
  function ProgramWalk(fn: string, v: string, lit: string): seq<Node> {
    [OtherNode, FunctionDef(fn, None), Assign([Name(v)]), OtherNode, OtherNode, OtherNode,
     Constant(Str(lit)), OtherNode]
  }

  /** The tokens of the same program: a blank line, the comment line, then the code. */
  function ProgramTokens(comment: string, fn: string, v: string, lit: string): seq<Lexed> {
    [Lexeme(Token(OtherToken, "\n")), Lexeme(Token(CommentToken, comment))] + ProgramCodeTokens(fn, v, lit)
  }

  /** The tokens of its two code lines, none of them a comment. */
  function ProgramCodeTokens(fn: string, v: string, lit: string): seq<Lexed> {
    [Lexeme(Token(OtherToken, "\n")), Lexeme(Token(OtherToken, "def")), Lexeme(Token(OtherToken, fn)),
     Lexeme(Token(OtherToken, "(")), Lexeme(Token(OtherToken, ")")), Lexeme(Token(OtherToken, ":")),
     Lexeme(Token(OtherToken, "pass")), Lexeme(Token(OtherToken, "\n")), Lexeme(Token(OtherToken, v)),
     Lexeme(Token(OtherToken, "=")), Lexeme(Token(OtherToken, "\"" + lit + "\"")), Lexeme(Token(OtherToken, "\n")),
     Lexeme(Token(OtherToken, ""))]
  }

  /** The functions of the test program: its one function, without a docstring. */
  lemma TestProgramFunctions(fn: string, v: string, lit: string)
    ensures FunctionsOf(ProgramWalk(fn, v, lit)) == [FunctionInfo(fn, "")]
  {
    var o, f, a, c := OtherNode, FunctionDef(fn, None), Assign([Name(v)]), Constant(Str(lit));
    var w1, w2, w3, w4 := [o], [o, f], [o, f, a], [o, f, a, o];
    var w5, w6, w7, w8 := [o, f, a, o, o], [o, f, a, o, o, o], [o, f, a, o, o, o, c], [o, f, a, o, o, o, c, o];
    assert w1[..0] == [] && w2[..1] == w1 && w3[..2] == w2 && w4[..3] == w3;
    assert w5[..4] == w4 && w6[..5] == w5 && w7[..6] == w6 && w8[..7] == w7;
    assert FunctionsOf(w1) == [];
    assert FunctionsOf(w2) == [FunctionInfo(fn, "")];
    assert FunctionsOf(w3) == [FunctionInfo(fn, "")];
    assert FunctionsOf(w4) == [FunctionInfo(fn, "")];
    assert FunctionsOf(w5) == [FunctionInfo(fn, "")];
    assert FunctionsOf(w6) == [FunctionInfo(fn, "")];
    assert FunctionsOf(w7) == [FunctionInfo(fn, "")];
    assert w8 == ProgramWalk(fn, v, lit);
  }

  /** The variables of the test program: its one assigned name. */
  lemma TestProgramVariables(fn: string, v: string, lit: string)
    ensures VariablesOf(ProgramWalk(fn, v, lit)) == [v]
  {
    var o, f, a, c := OtherNode, FunctionDef(fn, None), Assign([Name(v)]), Constant(Str(lit));
    var w1, w2, w3, w4 := [o], [o, f], [o, f, a], [o, f, a, o];
    var w5, w6, w7, w8 := [o, f, a, o, o], [o, f, a, o, o, o], [o, f, a, o, o, o, c], [o, f, a, o, o, o, c, o];
    assert w1[..0] == [] && w2[..1] == w1 && w3[..2] == w2 && w4[..3] == w3;
    assert w5[..4] == w4 && w6[..5] == w5 && w7[..6] == w6 && w8[..7] == w7;
    assert NameIds([Name(v)]) == [v] by {
      assert [Name(v)][..0] == [];
    }
    assert VariablesOf(w1) == [];
    assert VariablesOf(w2) == [];
    assert VariablesOf(w3) == [v];
    assert VariablesOf(w4) == [v];
    assert VariablesOf(w5) == [v];
    assert VariablesOf(w6) == [v];
    assert w8 == ProgramWalk(fn, v, lit);
  }

  /** The strings of the test program: its one literal, recorded once (it is not an expression statement). */
  lemma TestProgramStrings(fn: string, v: string, lit: string)
    ensures StringsOf(ProgramWalk(fn, v, lit)) == [lit]
  {
    var o, f, a, c := OtherNode, FunctionDef(fn, None), Assign([Name(v)]), Constant(Str(lit));
    var w1, w2, w3, w4 := [o], [o, f], [o, f, a], [o, f, a, o];
    var w5, w6, w7, w8 := [o, f, a, o, o], [o, f, a, o, o, o], [o, f, a, o, o, o, c], [o, f, a, o, o, o, c, o];
    assert w1[..0] == [] && w2[..1] == w1 && w3[..2] == w2 && w4[..3] == w3;
    assert w5[..4] == w4 && w6[..5] == w5 && w7[..6] == w6 && w8[..7] == w7;
    assert StringsOf(w1) == [];
    assert StringsOf(w2) == [];
    assert StringsOf(w3) == [];
    assert StringsOf(w4) == [];
    assert StringsOf(w5) == [];
    assert StringsOf(w6) == [];
    assert StringsOf(w7) == [lit];
    assert w8 == ProgramWalk(fn, v, lit);
  }

  /** The comments of the test program: its one comment token, which strip leaves as it is. */
  lemma TestProgramComments(comment: string, fn: string, v: string, lit: string)
    requires comment != [] && !IsSpace(comment[0]) && !IsSpace(comment[|comment| - 1])
    ensures CommentsOf(ProgramTokens(comment, fn, v, lit)) == [comment]
  {
    var code := ProgramCodeTokens(fn, v, lit);
    var tokens := ProgramTokens(comment, fn, v, lit);
    NoCommentTokens(code);
    StripKeeps(comment);
    assert tokens[1..][0] == Lexeme(Token(CommentToken, comment));
    assert tokens[1..][1..] == code;
    assert CommentsOf(tokens[1..]) == [comment];
    assert tokens[0].Lexeme? && tokens[0].token.kind == OtherToken;
  }

  /**
    What tests/test_inference.py:10-14 expects of that program, and exactly
    what the model yields, whatever its names and comment.
  */
  lemma TestProgramFeatures(comment: string, fn: string, v: string, lit: string)
    requires comment != [] && !IsSpace(comment[0]) && !IsSpace(comment[|comment| - 1])
    ensures Extract(Parsed(ProgramWalk(fn, v, lit)), ProgramTokens(comment, fn, v, lit))
      == Features([FunctionInfo(fn, "")], [v], [lit], [comment])
  {
    TestProgramFunctions(fn, v, lit);
    TestProgramVariables(fn, v, lit);
    TestProgramStrings(fn, v, lit);
    TestProgramComments(comment, fn, v, lit);
  }

  /** The test's own comment is left as it is by strip and contains "validate". */
  lemma TestCommentValidates()
    ensures var c := "# validate something";
      c != [] && !IsSpace(c[0]) && !IsSpace(c[|c| - 1]) && Contains(c, "validate")
  {
    assert OccursAt("# validate something", "validate", 2);
  }

  /** What `extract_features_from_code` returns or raises, as written. */
  datatype Outcome = Returned(features: Features) | RaisedAttributeError

  predicate IsStrConstant(n: Node) {
    n.Constant? && n.value.Str?
  }

  /**
    The `strings` list as run.py:41-44 builds it, or `None` where line 44
    raises `AttributeError`: on a string constant it reads `.value` of the
    `str` itself. It raises exactly when the walk holds a string constant,
    and agrees with the intended `StringsOf` when it does not raise.
  */
  function StringsAsWritten(walk: seq<Node>): (strings: Option<seq<string>>)
    ensures strings.None? <==> exists i :: 0 <= i < |walk| && IsStrConstant(walk[i])
    ensures strings.Some? ==> strings.value == StringsOf(walk)
  {
    if walk == [] then Some([])
    else
      var n := walk[|walk| - 1];
      var prefix := StringsAsWritten(walk[..|walk| - 1]);
      assert forall i :: 0 <= i < |walk| - 1 ==> walk[..|walk| - 1][i] == walk[i];
      if prefix.None? then None
      else
        match n
        case Expr(ConstantOperand(Str(s))) => Some(prefix.value + [s])
        case Constant(Str(_)) => None
        case _ => prefix
  }

  /** `extract_features_from_code` as written: the node loop raises on any string constant. */
  function ExtractAsWritten(parse: Parse, tokens: seq<Lexed>): (outcome: Outcome)
    ensures outcome.RaisedAttributeError? <==>
      parse.Parsed? && exists i :: 0 <= i < |parse.walk| && IsStrConstant(parse.walk[i])
    ensures outcome.Returned? ==> outcome.features == Extract(parse, tokens)
  {
    match parse
    case SyntaxError => Returned(NoFeatures)
    case Parsed(walk) =>
      match StringsAsWritten(walk)
      case None => RaisedAttributeError
      case Some(strings) =>
        Returned(Features(FunctionsOf(walk), VariablesOf(walk), strings, CommentsOf(tokens)))
  }

  /**
    The program of tests/test_inference.py:5-9 makes the code as written
    raise, where the test expects its literal among the strings; the
    corrected extraction records it.
  */
  lemma TestProgramRaisesAsWritten(fn: string, v: string, lit: string, tokens: seq<Lexed>)
    ensures ExtractAsWritten(Parsed(ProgramWalk(fn, v, lit)), tokens) == RaisedAttributeError
    ensures lit in Extract(Parsed(ProgramWalk(fn, v, lit)), tokens).strings
  {
    assert IsStrConstant(ProgramWalk(fn, v, lit)[6]);
    TestProgramStrings(fn, v, lit);
  }
}
