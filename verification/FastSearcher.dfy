/** The searcher object of webui/fasttable.js: a lexer position that moves through the text, and a compiled root. */
module FastSearching {
  import opened Wrappers
  import opened SearchSyntax

  class FastSearcher {
    var source: string
    var p: nat
    var root: Option<Tree>

    constructor ()
      ensures Valid() && root == None
    {
      source, p, root := "", 0, None;
    }

    predicate Valid()
      reads this
    {
      p <= |source|
    }

    function Rest(): string
      requires Valid()
      reads this
    {
      source[p..]
    }

    /** The inner loop of nextToken: a word, up to a delimiter outside quotes. */
    method ReadWord() returns (token: string)
      requires Valid()
      modifies this`p
      ensures Valid() && old(p) <= p
      ensures LexWord(old(Rest()), false) == Lexed(Some(token), Rest())
    {
      token := "";
      var quote := false;
      while p < |source|
        invariant Valid() && old(p) <= p
        invariant LexWord(old(Rest()), false).token.value == token + LexWord(Rest(), quote).token.value
        invariant LexWord(old(Rest()), false).rest == LexWord(Rest(), quote).rest
      {
        assert token + "" == token;
        assert Rest()[1..] == source[p + 1..];
        var ch := source[p];
        if !quote && IsDelimiter(ch) {
          return;
        }
        p := p + 1;
        if ch == '"' {
          quote := !quote;
        } else {
          token := token + [ch];
        }
      }
      assert token + "" == token;
    }

    method NextToken() returns (token: Option<string>)
      requires Valid()
      modifies this`p
      ensures Valid() && old(p) <= p && (token.Some? ==> old(p) < p)
      ensures Lex(old(Rest())) == Lexed(token, Rest())
    {
      while p < |source|
        invariant Valid() && old(p) <= p
        invariant Lex(Rest()) == Lex(old(Rest()))
      {
        assert Rest()[1..] == source[p + 1..];
        var ch := source[p];
        if IsBlank(ch) {
          p := p + 1;
          continue;
        }
        if IsOperatorChar(ch) {
          p := p + 1;
          return Some([ch]);
        }
        WordStart(Rest());
        var word := ReadWord();
        return Some(word);
      }
      token := None;
    }

    /** The recursive-descent parser. Every turn consumes a token, so it terminates on every text. */
    method Expression(greedy: bool) returns (node: Option<Tree>)
      requires Valid()
      modifies this`p
      ensures Valid() && old(p) <= p && source == old(source)
      ensures SearchSyntax.Expression(old(Rest()), greedy, None) == Parsed(node, Rest())
      decreases |source| - p
    {
      node := None;
      while true
        invariant Valid() && old(p) <= p
        invariant SearchSyntax.Expression(Rest(), greedy, node) == SearchSyntax.Expression(old(Rest()), greedy, None)
        decreases |source| - p
      {
        var token := NextToken();
        var node2: Option<Tree>;
        match token {
          case None => return;
          case Some(")") => return;
          case Some("-") =>
            node2 := Expression(false);
            node2 := if node2.Some? then Some(Not(node2.value)) else node2;
          case Some("(") =>
            node2 := Expression(true);
          case Some("|") =>
            node2 := Expression(false);
          case Some(text) =>
            node2 := Some(Term(text));
        }
        if node.Some? && node2.Some? {
          node := Some(if token.value == "|" then Or(node.value, node2.value) else And(node.value, node2.value));
        } else if node2.Some? {
          node := node2;
        }
        if !greedy && node.Some? {
          return;
        }
      }
    }

    method CompileText(text: string)
      modifies this
      ensures Valid() && root == Compile(text)
    {
      source, p := text, 0;
      assert Rest() == text;
      root := Expression(true);
    }

    method Exec(holds: string -> bool) returns (r: bool)
      ensures r == Passes(root, holds)
    {
      if root == None {
        return true;
      }
      r := Eval(root.value, holds);
    }
  }

  /** The character that sends nextToken into a word belongs to the word. */
  lemma WordStart(s: string)
    requires s != "" && !IsBlank(s[0]) && !IsOperatorChar(s[0])
    ensures LexWord(s, false) == Lex(s)
    ensures |LexWord(s, false).rest| < |s|
  {
  }
}
