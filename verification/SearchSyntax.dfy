/** The search expressions of webui/fasttable.js: their tokens, their trees, and what compiling a text gives. */
module SearchSyntax {
  import opened Wrappers

  datatype Tree =
    | Term(text: string)
    | And(left: Tree, right: Tree)
    | Or(left: Tree, right: Tree)
    | Not(operand: Tree)

  predicate IsBlank(c: char) {
    c == ' ' || c == '\t'
  }

  predicate IsOperatorChar(c: char) {
    c == '-' || c == '(' || c == ')' || c == '|'
  }

  /** Ends an unquoted word. A dash does not. */
  predicate IsDelimiter(c: char) {
    IsBlank(c) || c == '(' || c == ')' || c == '|'
  }

  datatype Lexed = Lexed(token: Option<string>, rest: string)

  /** The rest of a word; quotes are dropped and may open and close anywhere in it. */
  function LexWord(s: string, quote: bool): (r: Lexed)
    ensures r.token.Some? && |r.rest| <= |s|
  {
    if s == "" || (!quote && IsDelimiter(s[0])) then Lexed(Some(""), s)
    else if s[0] == '"' then LexWord(s[1..], !quote)
    else
      var r := LexWord(s[1..], quote);
      Lexed(Some([s[0]] + r.token.value), r.rest)
  }

  /** The next token, or None at the end of the text. A quoted operator is an operator all the same. */
  function Lex(s: string): (r: Lexed)
    ensures |r.rest| <= |s| && (r.token.Some? ==> |r.rest| < |s|)
  {
    if s == "" then Lexed(None, "")
    else if IsBlank(s[0]) then Lex(s[1..])
    else if IsOperatorChar(s[0]) then Lexed(Some([s[0]]), s[1..])
    else if s[0] == '"' then LexWord(s[1..], true)
    else
      var r := LexWord(s[1..], false);
      Lexed(Some([s[0]] + r.token.value), r.rest)
  }

  datatype Parsed = Parsed(tree: Option<Tree>, rest: string)

  /** The operand that a token begins. */
  function Operand(token: string, s: string): (r: Parsed)
    ensures |r.rest| <= |s|
    decreases |s|, 1
  {
    if token == "-" then
      var r := Expression(s, false, None);
      if r.tree.Some? then r.(tree := Some(Not(r.tree.value))) else r
    else if token == "(" then Expression(s, true, None)
    else if token == "|" then Expression(s, false, None)
    else Parsed(Some(Term(token)), s)
  }

  function Combine(token: string, node: Option<Tree>, node2: Option<Tree>): Option<Tree> {
    if node.Some? && node2.Some? then
      Some(if token == "|" then Or(node.value, node2.value) else And(node.value, node2.value))
    else if node2.Some? then node2
    else node
  }

  /** Reads operands onto `node`: all of them up to a closing parenthesis, or just the first one when not greedy. */
  function Expression(s: string, greedy: bool, node: Option<Tree>): (r: Parsed)
    ensures |r.rest| <= |s|
    decreases |s|, 0
  {
    var lexed := Lex(s);
    if lexed.token == None || lexed.token == Some(")") then Parsed(node, lexed.rest)
    else
      var r := Operand(lexed.token.value, lexed.rest);
      var combined := Combine(lexed.token.value, node, r.tree);
      if !greedy && combined.Some? then Parsed(combined, r.rest) else Expression(r.rest, greedy, combined)
  }

  function Compile(s: string): Option<Tree> {
    Expression(s, true, None).tree
  }

  /** A text that some word can stand for: no double quote, and not itself an operator. */
  predicate IsWord(text: string) {
    '"' !in text && text != "-" && text != "(" && text != ")" && text != "|"
  }

  predicate Searchable(t: Tree) {
    match t
    case Term(text) => IsWord(text)
    case And(l, r) => Searchable(l) && Searchable(r)
    case Or(l, r) => Searchable(l) && Searchable(r)
    case Not(m) => Searchable(m)
  }

  /** Terms in quotes, everything else in parentheses. */
  function Print(t: Tree): string {
    match t
    case Term(text) => "\"" + text + "\""
    case And(l, r) => "(" + Print(l) + " " + Print(r) + ")"
    case Or(l, r) => "(" + Print(l) + "|" + Print(r) + ")"
    case Not(m) => "(-" + Print(m) + ")"
  }

  predicate Delimited(rest: string) {
    rest == "" || IsDelimiter(rest[0])
  }

  lemma {:induction false} LexQuoted(text: string, rest: string)
    requires '"' !in text && Delimited(rest)
    ensures LexWord(text + "\"" + rest, true) == Lexed(Some(text), rest)
  {
    var s := text + "\"" + rest;
    if text == "" {
      assert s[1..] == rest;
    } else {
      assert text[0] in text && s[0] == text[0] && s[1..] == text[1..] + "\"" + rest;
      LexQuoted(text[1..], rest);
      assert [text[0]] + text[1..] == text;
    }
  }

  /** A printed tree is read as one operand, and reading goes on right after it. */
  ghost predicate ReadsAs(s: string, t: Tree, rest: string) {
    var lexed := Lex(s);
    && lexed.token.Some?
    && lexed.token.value != ")" && lexed.token.value != "|"
    && Operand(lexed.token.value, lexed.rest) == Parsed(Some(t), rest)
  }

  function AndOnto(node: Option<Tree>, t: Tree): Tree {
    if node.Some? then And(node.value, t) else t
  }

  lemma ReadOperand(s: string, t: Tree, rest: string, greedy: bool, node: Option<Tree>)
    requires ReadsAs(s, t, rest)
    ensures Expression(s, greedy, node) ==
      if greedy then Expression(rest, true, Some(AndOnto(node, t))) else Parsed(Some(AndOnto(node, t)), rest)
  {
  }

  lemma SkipBlank(s: string, greedy: bool, node: Option<Tree>)
    ensures Expression(" " + s, greedy, node) == Expression(s, greedy, node)
  {
    assert (" " + s)[1..] == s;
  }

  lemma Close(rest: string, node: Option<Tree>)
    ensures Expression(")" + rest, true, node) == Parsed(node, rest)
  {
    assert (")" + rest)[1..] == rest;
  }

  /** After a vertical bar, one operand joins what came before. */
  lemma ReadOr(s: string, t: Tree, rest: string, node: Tree)
    requires ReadsAs(s, t, rest)
    ensures Expression("|" + s, true, Some(node)) == Expression(rest, true, Some(Or(node, t)))
  {
    assert ("|" + s)[1..] == s;
    ReadOperand(s, t, rest, false, None);
    assert Operand("|", s) == Parsed(Some(t), rest);
  }

  lemma ReadNegated(s: string, t: Tree, rest: string)
    requires ReadsAs(s, t, rest)
    ensures ReadsAs("-" + s, Not(t), rest)
  {
    assert ("-" + s)[1..] == s;
    ReadOperand(s, t, rest, false, None);
  }

  lemma ReadParenthesised(s: string, t: Tree, rest: string)
    requires Expression(s, true, None) == Parsed(Some(t), rest)
    ensures ReadsAs("(" + s, t, rest)
  {
    assert ("(" + s)[1..] == s;
  }

  lemma ReadTerm(text: string, rest: string)
    requires IsWord(text) && Delimited(rest)
    ensures ReadsAs(Print(Term(text)) + rest, Term(text), rest)
  {
    assert (Print(Term(text)) + rest)[1..] == text + "\"" + rest;
    LexQuoted(text, rest);
  }

  /** Two operands in parentheses, `first` and `second` being the text from the start of each. */
  lemma ReadAnd(l: Tree, r: Tree, first: string, second: string, rest: string)
    requires ReadsAs(first, l, " " + second) && ReadsAs(second, r, ")" + rest)
    ensures ReadsAs("(" + first, And(l, r), rest)
  {
    ReadOperand(first, l, " " + second, true, None);
    SkipBlank(second, true, Some(l));
    ReadOperand(second, r, ")" + rest, true, Some(l));
    Close(rest, Some(And(l, r)));
    ReadParenthesised(first, And(l, r), rest);
  }

  lemma ReadEither(l: Tree, r: Tree, first: string, second: string, rest: string)
    requires ReadsAs(first, l, "|" + second) && ReadsAs(second, r, ")" + rest)
    ensures ReadsAs("(" + first, Or(l, r), rest)
  {
    ReadOperand(first, l, "|" + second, true, None);
    ReadOr(second, r, ")" + rest, l);
    Close(rest, Some(Or(l, r)));
    ReadParenthesised(first, Or(l, r), rest);
  }

  lemma ReadNot(m: Tree, first: string, rest: string)
    requires ReadsAs(first, m, ")" + rest)
    ensures ReadsAs("(" + ("-" + first), Not(m), rest)
  {
    ReadNegated(first, m, ")" + rest);
    ReadOperand("-" + first, Not(m), ")" + rest, true, None);
    Close(rest, Some(Not(m)));
    ReadParenthesised("-" + first, Not(m), rest);
  }

  lemma TextOfAnd(l: Tree, r: Tree, rest: string)
    ensures Print(And(l, r)) + rest == "(" + (Print(l) + (" " + (Print(r) + (")" + rest))))
  {
  }

  lemma TextOfOr(l: Tree, r: Tree, rest: string)
    ensures Print(Or(l, r)) + rest == "(" + (Print(l) + ("|" + (Print(r) + (")" + rest))))
  {
  }

  lemma TextOfNot(m: Tree, rest: string)
    ensures Print(Not(m)) + rest == "(" + ("-" + (Print(m) + (")" + rest)))
  {
  }

  lemma {:induction false} ReadAndTree(l: Tree, r: Tree, rest: string)
    requires Searchable(l) && Searchable(r) && Delimited(rest)
    ensures ReadsAs(Print(And(l, r)) + rest, And(l, r), rest)
    decreases And(l, r), 0
  {
    var second := Print(r) + (")" + rest);
    ReadTree(l, " " + second);
    ReadTree(r, ")" + rest);
    ReadAnd(l, r, Print(l) + (" " + second), second, rest);
    TextOfAnd(l, r, rest);
  }

  lemma {:induction false} ReadOrTree(l: Tree, r: Tree, rest: string)
    requires Searchable(l) && Searchable(r) && Delimited(rest)
    ensures ReadsAs(Print(Or(l, r)) + rest, Or(l, r), rest)
    decreases Or(l, r), 0
  {
    var second := Print(r) + (")" + rest);
    ReadTree(l, "|" + second);
    ReadTree(r, ")" + rest);
    ReadEither(l, r, Print(l) + ("|" + second), second, rest);
    TextOfOr(l, r, rest);
  }

  lemma {:induction false} ReadNotTree(m: Tree, rest: string)
    requires Searchable(m) && Delimited(rest)
    ensures ReadsAs(Print(Not(m)) + rest, Not(m), rest)
    decreases Not(m), 0
  {
    ReadTree(m, ")" + rest);
    ReadNot(m, Print(m) + (")" + rest), rest);
    TextOfNot(m, rest);
  }

  /** A searchable tree, printed, is read back as itself. */
  lemma {:induction false} ReadTree(t: Tree, rest: string)
    requires Searchable(t) && Delimited(rest)
    ensures ReadsAs(Print(t) + rest, t, rest)
    decreases t, 1
  {
    match t {
      case Term(text) => ReadTerm(text, rest);
      case And(l, r) => ReadAndTree(l, r, rest);
      case Or(l, r) => ReadOrTree(l, r, rest);
      case Not(m) => ReadNotTree(m, rest);
    }
  }

  lemma RoundTrip(t: Tree)
    requires Searchable(t)
    ensures Compile(Print(t)) == Some(t)
  {
    ReadTree(t, "");
    assert Print(t) + "" == Print(t);
    ReadOperand(Print(t), t, "", true, None);
  }

  lemma {:induction false} WordsHaveNoQuotes(s: string, quote: bool)
    ensures '"' !in LexWord(s, quote).token.value
  {
    if s != "" && (quote || !IsDelimiter(s[0])) {
      WordsHaveNoQuotes(s[1..], if s[0] == '"' then !quote else quote);
    }
  }

  lemma {:induction false} TokensHaveNoQuotes(s: string)
    ensures Lex(s).token.Some? ==> '"' !in Lex(s).token.value
  {
    if s != "" && IsBlank(s[0]) {
      TokensHaveNoQuotes(s[1..]);
    } else if s != "" && !IsOperatorChar(s[0]) {
      WordsHaveNoQuotes(s[1..], s[0] == '"');
    }
  }

  /** Whatever the text, the terms of the compiled tree are words. */
  lemma {:induction false} ExpressionIsSearchable(s: string, greedy: bool, node: Option<Tree>)
    requires node.Some? ==> Searchable(node.value)
    ensures var r := Expression(s, greedy, node).tree; r.Some? ==> Searchable(r.value)
    decreases |s|
  {
    var lexed := Lex(s);
    TokensHaveNoQuotes(s);
    if lexed.token != None && lexed.token != Some(")") {
      var token := lexed.token.value;
      if token == "-" || token == "(" || token == "|" {
        ExpressionIsSearchable(lexed.rest, token == "(", None);
      }
      var r := Operand(token, lexed.rest);
      var combined := Combine(token, node, r.tree);
      if greedy || combined.None? {
        ExpressionIsSearchable(r.rest, greedy, combined);
      }
    }
  }

  /** The trees that some text compiles to are exactly those whose terms are words, and printing finds such a text. */
  lemma CompilesToIff(t: Tree)
    ensures (exists s :: Compile(s) == Some(t)) <==> Searchable(t)
    ensures Compile(Print(t)) == Some(t) <==> Searchable(t)
  {
    if Searchable(t) {
      RoundTrip(t);
    }
    forall s | Compile(s) == Some(t)
      ensures Searchable(t)
    {
      ExpressionIsSearchable(s, true, None);
    }
  }

  /** One more operand of an unparenthesised text: after a bar or a blank, perhaps negated by a dash. */
  datatype Link = Link(isOr: bool, negated: bool, tree: Tree)

  function LinkedText(link: Link): string {
    if link.negated then "-" + Print(link.tree) else Print(link.tree)
  }

  function LinkedTree(link: Link): Tree {
    if link.negated then Not(link.tree) else link.tree
  }

  function Flat(links: seq<Link>): string {
    if links == [] then ""
    else (if links[0].isOr then "|" else " ") + (LinkedText(links[0]) + Flat(links[1..]))
  }

  /** Bars and blanks have the same precedence and group to the left; a dash binds just the operand after it. */
  function FoldLeft(node: Tree, links: seq<Link>): Tree
    decreases |links|
  {
    if links == [] then node
    else FoldLeft(Attach(node, links[0]), links[1..])
  }

  function Attach(node: Tree, link: Link): Tree {
    if link.isOr then Or(node, LinkedTree(link)) else And(node, LinkedTree(link))
  }

  lemma ReadLinked(link: Link, rest: string)
    requires Searchable(link.tree) && Delimited(rest)
    ensures ReadsAs(LinkedText(link) + rest, LinkedTree(link), rest)
  {
    ReadTree(link.tree, rest);
    if link.negated {
      ReadNegated(Print(link.tree) + rest, link.tree, rest);
      assert LinkedText(link) + rest == "-" + (Print(link.tree) + rest);
    }
  }

  lemma {:induction false} ReadLinks(node: Tree, links: seq<Link>)
    requires forall i :: 0 <= i < |links| ==> Searchable(links[i].tree)
    ensures Delimited(Flat(links))
    ensures Expression(Flat(links), true, Some(node)) == Parsed(Some(FoldLeft(node, links)), "")
    decreases |links|
  {
    if links != [] {
      var link, rest := links[0], Flat(links[1..]);
      var s := LinkedText(link) + rest;
      ReadLinks(Attach(node, link), links[1..]);
      ReadLinked(link, rest);
      if link.isOr {
        ReadOr(s, LinkedTree(link), rest, node);
      } else {
        SkipBlank(s, true, Some(node));
        ReadOperand(s, LinkedTree(link), rest, true, Some(node));
      }
    }
  }

  lemma UnparenthesisedFoldsLeft(first: Tree, links: seq<Link>)
    requires Searchable(first) && forall i :: 0 <= i < |links| ==> Searchable(links[i].tree)
    ensures Compile(Print(first) + Flat(links)) == Some(FoldLeft(first, links))
  {
    ReadLinks(first, links);
    ReadTree(first, Flat(links));
    ReadOperand(Print(first) + Flat(links), first, Flat(links), true, None);
  }

  /** Whether a record passes, given which terms hold of it. */
  function Eval(t: Tree, holds: string -> bool): bool {
    match t
    case Term(text) => holds(text)
    case And(l, r) => Eval(l, holds) && Eval(r, holds)
    case Or(l, r) => Eval(l, holds) || Eval(r, holds)
    case Not(m) => !Eval(m, holds)
  }

  /** A search with no terms lets every record pass. */
  function Passes(root: Option<Tree>, holds: string -> bool): bool {
    root.Some? ==> Eval(root.value, holds)
  }

  /** Reading the operands from left to right, each one narrows or widens what has passed so far. */
  function Accumulate(passed: bool, links: seq<Link>, truths: seq<bool>): bool
    requires |truths| == |links|
    decreases |links|
  {
    if links == [] then passed
    else
      var operand := truths[0] != links[0].negated;
      Accumulate(if links[0].isOr then passed || operand else passed && operand, links[1..], truths[1..])
  }

  lemma {:induction false} EvalFold(node: Tree, links: seq<Link>, holds: string -> bool, truths: seq<bool>)
    requires |truths| == |links| && forall i :: 0 <= i < |links| ==> truths[i] == Eval(links[i].tree, holds)
    ensures Eval(FoldLeft(node, links), holds) == Accumulate(Eval(node, holds), links, truths)
    decreases |links|
  {
    if links != [] {
      EvalFold(Attach(node, links[0]), links[1..], holds, truths[1..]);
    }
  }

  /** What an unparenthesised text of printed searches means, given what each one means alone. */
  lemma SearchMeaning(first: Tree, links: seq<Link>, holds: string -> bool, truths: seq<bool>)
    requires Searchable(first) && forall i :: 0 <= i < |links| ==> Searchable(links[i].tree)
    requires |truths| == |links|
    requires forall i :: 0 <= i < |links| ==> truths[i] == Passes(Compile(Print(links[i].tree)), holds)
    ensures Passes(Compile(Print(first) + Flat(links)), holds) ==
      Accumulate(Passes(Compile(Print(first)), holds), links, truths)
  {
    UnparenthesisedFoldsLeft(first, links);
    RoundTrip(first);
    forall i | 0 <= i < |links|
      ensures truths[i] == Eval(links[i].tree, holds)
    {
      RoundTrip(links[i].tree);
    }
    EvalFold(first, links, holds, truths);
  }

  function Quoted(text: string): string {
    "\"" + text + "\""
  }

  /** A quoted word alone shows exactly the records in which it is found. */
  lemma WordMeaning(text: string, holds: string -> bool)
    requires IsWord(text)
    ensures Passes(Compile(Quoted(text)), holds) == holds(text)
  {
    RoundTrip(Term(text));
  }

  /** Searches combine by a blank, a bar and a dash as by and, or and not. */
  lemma CombinedMeaning(l: Tree, r: Tree, holds: string -> bool)
    requires Searchable(l) && Searchable(r)
    ensures var left, right := Passes(Compile(Print(l)), holds), Passes(Compile(Print(r)), holds);
      && Passes(Compile("(" + Print(l) + " " + Print(r) + ")"), holds) == (left && right)
      && Passes(Compile("(" + Print(l) + "|" + Print(r) + ")"), holds) == (left || right)
      && Passes(Compile("(-" + Print(l) + ")"), holds) == !left
  {
    RoundTrip(l);
    RoundTrip(r);
    RoundTrip(And(l, r));
    RoundTrip(Or(l, r));
    RoundTrip(Not(l));
  }

  /** No search lets every record pass. */
  lemma {:induction false} BlankMeaning(s: string, holds: string -> bool)
    requires forall i :: 0 <= i < |s| ==> s[i] == ' ' || s[i] == '\t'
    ensures Compile(s) == None && Passes(Compile(s), holds)
  {
    NoToken(s);
  }

  lemma {:induction false} NoToken(s: string)
    requires forall i :: 0 <= i < |s| ==> s[i] == ' ' || s[i] == '\t'
    ensures Lex(s).token == None
  {
    if s != "" {
      NoToken(s[1..]);
    }
  }

  /** A blank before a bar: the two operands around the blank come first. */
  lemma AndThenOr(a: string, b: string, c: string, holds: string -> bool)
    requires IsWord(a) && IsWord(b) && IsWord(c)
    ensures var s := Quoted(a) + ((" " + Quoted(b)) + ("|" + Quoted(c)));
      Passes(Compile(s), holds) == ((holds(a) && holds(b)) || holds(c))
  {
    ThreeWords(a, Link(false, false, Term(b)), Link(true, false, Term(c)), holds);
  }

  /** A bar before a blank: the two operands around the bar do, for neither binds more tightly. */
  lemma OrThenAndNot(a: string, b: string, c: string, holds: string -> bool)
    requires IsWord(a) && IsWord(b) && IsWord(c)
    ensures var s := Quoted(a) + (("|" + Quoted(b)) + (" " + ("-" + Quoted(c))));
      Passes(Compile(s), holds) == ((holds(a) || holds(b)) && !holds(c))
  {
    ThreeWords(a, Link(true, false, Term(b)), Link(false, true, Term(c)), holds);
  }

  function LinkText(link: Link): string {
    (if link.isOr then "|" else " ") + LinkedText(link)
  }

  function Joined(passed: bool, link: Link, truth: bool): bool {
    var operand := truth != link.negated;
    if link.isOr then passed || operand else passed && operand
  }

  lemma ThreeWords(a: string, l: Link, m: Link, holds: string -> bool)
    requires l.tree.Term? && m.tree.Term? && IsWord(a) && IsWord(l.tree.text) && IsWord(m.tree.text)
    ensures Passes(Compile(Quoted(a) + (LinkText(l) + LinkText(m))), holds) ==
      Joined(Joined(holds(a), l, holds(l.tree.text)), m, holds(m.tree.text))
  {
    var truths := [holds(l.tree.text), holds(m.tree.text)];
    WordMeaning(a, holds);
    WordMeaning(l.tree.text, holds);
    WordMeaning(m.tree.text, holds);
    SearchMeaning(Term(a), [l, m], holds, truths);
    TwoLinks(l, m);
    AccumulateTwo(holds(a), l, m, truths[0], truths[1]);
  }

  lemma AccumulateTwo(passed: bool, l: Link, m: Link, first: bool, second: bool)
    ensures Accumulate(passed, [l, m], [first, second]) == Joined(Joined(passed, l, first), m, second)
  {
    assert [l, m][1..] == [m] && [first, second][1..] == [second];
    assert Accumulate(Joined(passed, l, first), [m], [second]) == Joined(Joined(passed, l, first), m, second);
  }

  lemma TwoLinks(l: Link, m: Link)
    ensures Flat([l, m]) == LinkText(l) + LinkText(m)
  {
    OneLink(l, [m]);
    OneLink(m, []);
    assert [l] + [m] == [l, m] && [m] + [] == [m] && LinkText(m) + "" == LinkText(m);
  }

  lemma OneLink(link: Link, rest: seq<Link>)
    ensures Flat([link] + rest) == LinkText(link) + Flat(rest)
  {
    assert ([link] + rest)[1..] == rest;
  }

  // ---- Words without quotes --------------------------------------------------------------------

  /** No dash at the start, though one may stand inside, and none of the characters that mean something anywhere. */
  predicate IsPlainWord(word: string) {
    && word != "" && word[0] != '-'
    && forall i :: 0 <= i < |word| ==> word[i] !in {' ', '\t', '(', ')', '|', '"'}
  }

  lemma {:induction false} LexPlain(word: string, rest: string)
    requires forall i :: 0 <= i < |word| ==> word[i] !in {' ', '\t', '(', ')', '|', '"'}
    requires rest == "" || rest[0] in {' ', '\t', '(', ')', '|'}
    ensures LexWord(word + rest, false) == Lexed(Some(word), rest)
  {
    if word == "" {
      assert word + rest == rest;
    } else {
      assert (word + rest)[1..] == word[1..] + rest;
      LexPlain(word[1..], rest);
      assert [word[0]] + word[1..] == word;
    }
  }

  /** A word stands for itself, up to the end of the text or the first blank, parenthesis or bar. */
  lemma PlainWord(word: string, rest: string)
    requires IsPlainWord(word)
    requires rest == "" || rest[0] in {' ', '\t', '(', ')', '|'}
    ensures ReadsAs(word + rest, Term(word), rest)
  {
    assert (word + rest)[1..] == word[1..] + rest && [word[0]] + word[1..] == word;
    LexPlain(word[1..], rest);
  }

  /** Typed without quotes, words search as they do with quotes. */
  lemma PlainWordMeaning(word: string, holds: string -> bool)
    requires IsPlainWord(word)
    ensures Compile(word) == Some(Term(word)) && Passes(Compile(word), holds) == holds(word)
  {
    PlainWord(word, "");
    assert word + "" == word;
    ReadOperand(word, Term(word), "", true, None);
  }

  /** Quotes may open inside a word, and close before it ends. */
  lemma {:induction false} LexQuoteInside(word: string, text: string, more: string, rest: string)
    requires forall i :: 0 <= i < |word| ==> word[i] !in {' ', '\t', '(', ')', '|', '"'}
    requires forall i :: 0 <= i < |more| ==> more[i] !in {' ', '\t', '(', ')', '|', '"'}
    requires '"' !in text && (rest == "" || rest[0] in {' ', '\t', '(', ')', '|'})
    ensures LexWord(word + ("\"" + (text + ("\"" + (more + rest)))), false) == Lexed(Some(word + (text + more)), rest)
  {
    var s := "\"" + (text + ("\"" + (more + rest)));
    if word == "" {
      assert (word + s)[1..] == text + ("\"" + (more + rest));
      LexInQuotes(text, more, rest);
      assert word + (text + more) == text + more;
    } else {
      assert (word + s)[1..] == word[1..] + s;
      LexQuoteInside(word[1..], text, more, rest);
      assert [word[0]] + (word[1..] + (text + more)) == word + (text + more);
    }
  }

  lemma {:induction false} LexInQuotes(text: string, more: string, rest: string)
    requires forall i :: 0 <= i < |more| ==> more[i] !in {' ', '\t', '(', ')', '|', '"'}
    requires '"' !in text && (rest == "" || rest[0] in {' ', '\t', '(', ')', '|'})
    ensures LexWord(text + ("\"" + (more + rest)), true) == Lexed(Some(text + more), rest)
  {
    var s := "\"" + (more + rest);
    if text == "" {
      assert (text + s)[1..] == more + rest && text + more == more;
      LexPlain(more, rest);
    } else {
      assert text[0] in text && (text + s)[1..] == text[1..] + s;
      LexInQuotes(text[1..], more, rest);
      assert [text[0]] + (text[1..] + more) == text + more;
    }
  }

  /** A quote that is not closed goes on to the end of the text. */
  lemma {:induction false} LexUnclosed(text: string)
    requires '"' !in text
    ensures LexWord(text, true) == Lexed(Some(text), "")
  {
    if text != "" {
      assert text[0] in text;
      LexUnclosed(text[1..]);
      assert [text[0]] + text[1..] == text;
    }
  }

  /** The quotes of `field:"two words"` hold the word together, and are not part of it. */
  lemma QuoteInsideMeaning(word: string, text: string, more: string, holds: string -> bool)
    requires IsPlainWord(word) && (more == "" || IsPlainWord(more)) && '"' !in text
    ensures Passes(Compile(word + ("\"" + (text + ("\"" + more)))), holds) == holds(word + (text + more))
    ensures Passes(Compile(word + ("\"" + text)), holds) == holds(word + text)
  {
    QuoteInside(word, text, more);
    LastQuote(word, text);
    SingleToken(word + ("\"" + (text + ("\"" + more))), word + (text + more));
    SingleToken(word + ("\"" + text), word + text);
  }

  lemma QuoteInside(word: string, text: string, more: string)
    requires IsPlainWord(word) && (more == "" || IsPlainWord(more)) && '"' !in text
    ensures Lex(word + ("\"" + (text + ("\"" + more)))) == Lexed(Some(word + (text + more)), "")
  {
    var s := "\"" + (text + ("\"" + more));
    assert more + "" == more && (word + s)[1..] == word[1..] + s;
    LexQuoteInside(word[1..], text, more, "");
    assert [word[0]] + (word[1..] + (text + more)) == word + (text + more);
  }

  lemma LastQuote(word: string, text: string)
    requires IsPlainWord(word) && '"' !in text
    ensures Lex(word + ("\"" + text)) == Lexed(Some(word + text), "")
  {
    var s := "\"" + text;
    assert (word + s)[1..] == word[1..] + s;
    LexOpening(word[1..], text);
    assert [word[0]] + (word[1..] + text) == word + text;
  }

  lemma {:induction false} LexOpening(word: string, text: string)
    requires forall i :: 0 <= i < |word| ==> word[i] !in {' ', '\t', '(', ')', '|', '"'}
    requires '"' !in text
    ensures LexWord(word + ("\"" + text), false) == Lexed(Some(word + text), "")
  {
    var s := "\"" + text;
    if word == "" {
      assert (word + s)[1..] == text && word + text == text;
      LexUnclosed(text);
    } else {
      assert (word + s)[1..] == word[1..] + s;
      LexOpening(word[1..], text);
      assert [word[0]] + (word[1..] + text) == word + text;
    }
  }

  lemma SingleToken(s: string, token: string)
    requires Lex(s) == Lexed(Some(token), "") && token != "" && token[0] !in {'-', '(', ')', '|'}
    ensures Compile(s) == Some(Term(token))
  {
    ReadOperand(s, Term(token), "", true, None);
  }

  /** A dash is an operator only where a word could begin. */
  lemma DashInside(a: string, b: string, holds: string -> bool)
    requires IsPlainWord(a) && IsPlainWord(b)
    ensures Passes(Compile(a + "-" + b), holds) == holds(a + "-" + b)
  {
    PlainWordMeaning(a + "-" + b, holds);
  }

  lemma DashBefore(a: string, b: string, holds: string -> bool)
    requires IsPlainWord(a) && IsPlainWord(b)
    ensures Passes(Compile(a + (" " + ("-" + b))), holds) == (holds(a) && !holds(b))
  {
    PlainWord(a, " " + ("-" + b));
    PlainWord(b, "");
    assert b + "" == b;
    ReadNegated(b, Term(b), "");
    ReadAfterBlank(a + (" " + ("-" + b)), Term(a), "-" + b, Not(Term(b)));
    EvalAnd(Term(a), Not(Term(b)), holds);
    assert Eval(Not(Term(b)), holds) == !Eval(Term(b), holds) == !holds(b);
  }

  lemma EvalAnd(l: Tree, r: Tree, holds: string -> bool)
    ensures Passes(Some(And(l, r)), holds) == (Eval(l, holds) && Eval(r, holds))
  {
  }

  lemma ReadAfterBlank(s: string, t: Tree, rest: string, u: Tree)
    requires ReadsAs(s, t, " " + rest) && ReadsAs(rest, u, "")
    ensures Compile(s) == Some(And(t, u))
  {
    ReadOperand(s, t, " " + rest, true, None);
    SkipBlank(rest, true, Some(t));
    ReadOperand(rest, u, "", true, Some(t));
  }
}
