/** daemon/extension/ExtensionManager.cpp: loading extensions under unique names, and their order. */
module Extensions {
  import opened Wrappers
  import opened Sequences

  /** The name is the key; entry file and location tell which file a name stands for. */
  datatype Extension = Extension(name: string, entry: string, location: string)

  // ---- Names -----------------------------------------------------------------------------------

  function NamesOf(s: seq<Extension>): set<string> {
    set e | e in s :: e.name
  }

  function Names(s: seq<Extension>): (r: seq<string>)
    ensures |r| == |s|
    ensures forall i :: 0 <= i < |s| ==> r[i] == s[i].name
  {
    seq(|s|, i requires 0 <= i < |s| => s[i].name)
  }

  predicate NamesUnique(s: seq<Extension>) {
    forall i, j :: 0 <= i < j < |s| ==> s[i].name != s[j].name
  }

  /** A name says which extension is meant, though it may be listed more than once. */
  predicate NamesTell(s: seq<Extension>) {
    forall x, y :: x in s && y in s && x.name == y.name ==> x == y
  }

  lemma SameMembers(a: seq<Extension>, b: seq<Extension>)
    requires multiset(a) == multiset(b)
    ensures |a| == |b| && forall x :: x in a <==> x in b
    ensures NamesOf(a) == NamesOf(b)
  {
    assert |a| == |multiset(a)| == |multiset(b)| == |b|;
    assert forall x :: x in a <==> x in multiset(a);
    assert forall x :: x in b <==> x in multiset(b);
  }

  /** The multiset of the rest follows when the first elements agree. */
  lemma SameRest(a: seq<Extension>, b: seq<Extension>, k: nat)
    requires multiset(a) == multiset(b) && a != [] && k < |b| && b[k] == a[0]
    ensures multiset(a[1..]) == multiset(RemoveAt(b, k))
  {
    assert a == [a[0]] + a[1..];
    assert b == b[..k] + [b[k]] + b[k + 1..];
    assert multiset(a) == multiset{a[0]} + multiset(a[1..]);
    assert multiset(b) == multiset(b[..k]) + multiset{b[k]} + multiset(b[k + 1..]);
    assert multiset(RemoveAt(b, k)) == multiset(b[..k]) + multiset(b[k + 1..]);
    assert multiset(a[1..]) == multiset(a) - multiset{a[0]};
    assert multiset(RemoveAt(b, k)) == multiset(b) - multiset{b[k]};
  }

  lemma {:induction false} RearrangingKeepsNamesUnique(a: seq<Extension>, b: seq<Extension>)
    requires multiset(a) == multiset(b) && NamesUnique(a)
    ensures NamesUnique(b)
    decreases |a|
  {
    SameMembers(a, b);
    if a != [] {
      assert a[0] in b;
      var k :| 0 <= k < |b| && b[k] == a[0];
      var rest := RemoveAt(b, k);
      SameRest(a, b, k);
      SameMembers(a[1..], rest);
      RearrangingKeepsNamesUnique(a[1..], rest);
      forall i, j | 0 <= i < j < |b|
        ensures b[i].name != b[j].name
      {
        assert i < k ==> rest[i] == b[i];
        assert i > k ==> rest[i - 1] == b[i];
        assert j < k ==> rest[j] == b[j];
        assert j > k ==> rest[j - 1] == b[j];
        assert i == k ==> b[j] in rest && b[j] in a[1..];
        assert j == k ==> b[i] in rest && b[i] in a[1..];
      }
    }
  }

  // ---- strcmp ----------------------------------------------------------------------------------

  /** `strcmp(a, b) < 0`. */
  predicate Less(a: string, b: string) {
    if b == [] then false
    else if a == [] then true
    else a[0] < b[0] || (a[0] == b[0] && Less(a[1..], b[1..]))
  }

  /** The first characters that differ decide; a proper prefix comes first. */
  lemma {:induction false} LessByFirstDifference(p: string, c: char, x: string, d: char, y: string)
    requires c != d
    ensures Less(p + ([c] + x), p + ([d] + y)) <==> c < d
    ensures Less(p, p + ([c] + x)) && !Less(p + ([c] + x), p)
  {
    var a, b := p + ([c] + x), p + ([d] + y);
    if p == [] {
      assert a == [c] + x && b == [d] + y;
    } else {
      assert a[1..] == p[1..] + ([c] + x) && b[1..] == p[1..] + ([d] + y);
      LessByFirstDifference(p[1..], c, x, d, y);
    }
  }

  lemma {:induction false} LessIsTotal(a: string, b: string)
    ensures (Less(a, b) && !Less(b, a) && a != b) || (Less(b, a) && !Less(a, b) && a != b) || (a == b && !Less(a, b))
  {
    if a != [] && b != [] {
      LessIsTotal(a[1..], b[1..]);
      assert a == [a[0]] + a[1..] && b == [b[0]] + b[1..];
    }
  }

  lemma {:induction false} LessIsTransitive(a: string, b: string, c: string)
    requires !Less(b, a) && !Less(c, b)
    ensures !Less(c, a)
  {
    if a != [] && b != [] && c != [] && a[0] == b[0] == c[0] {
      LessIsTransitive(a[1..], b[1..], c[1..]);
    }
  }

  predicate Ascending(s: seq<Extension>) {
    forall i, j :: 0 <= i < j < |s| ==> !Less(s[j].name, s[i].name)
  }

  lemma FirstIsLeast(s: seq<Extension>, t: seq<Extension>)
    requires Ascending(s) && Ascending(t) && NamesTell(s) && s != [] && t != []
    requires forall x :: x in s <==> x in t
    ensures s[0] == t[0]
  {
    assert t[0] in s && s[0] in t;
    LessIsTotal(s[0].name, t[0].name);
  }

  /** When names tell the extensions apart, there is one sorted arrangement: how the library sorts does not matter. */
  lemma {:induction false} SortedIsUnique(s: seq<Extension>, t: seq<Extension>)
    requires Ascending(s) && Ascending(t) && multiset(s) == multiset(t) && NamesTell(s)
    ensures s == t
  {
    SameMembers(s, t);
    if s != [] {
      FirstIsLeast(s, t);
      assert multiset(s[1..]) == multiset(t[1..]) by {
        SameRest(s, t, 0);
        assert RemoveAt(t, 0) == t[1..];
      }
      SortedIsUnique(s[1..], t[1..]);
      assert s == [s[0]] + s[1..] && t == [t[0]] + t[1..];
    }
  }

  // ---- The order -------------------------------------------------------------------------------

  /** The order list without repetitions, first mentions kept. */
  function Dedupe(tokens: seq<string>): seq<string> {
    if tokens == [] then []
    else
      var before := Dedupe(tokens[..|tokens| - 1]);
      if tokens[|tokens| - 1] in before then before else before + [tokens[|tokens| - 1]]
  }

  lemma {:induction false} DedupeKeepsTheNames(tokens: seq<string>)
    ensures Distinct(Dedupe(tokens))
    ensures forall n :: n in Dedupe(tokens) <==> n in tokens
  {
    if tokens != [] {
      DedupeKeepsTheNames(tokens[..|tokens| - 1]);
      assert tokens == tokens[..|tokens| - 1] + [tokens[|tokens| - 1]];
    }
  }

  /** `a` is mentioned before `b` is for the first time. */
  predicate MentionedFirst(tokens: seq<string>, a: string, b: string) {
    exists k :: 0 <= k < |tokens| && tokens[k] == a && b !in tokens[..k + 1]
  }

  /** The names stand in the order of their first mentions. */
  lemma {:induction false} DedupeKeepsTheOrder(tokens: seq<string>)
    ensures forall i, j :: 0 <= i < j < |Dedupe(tokens)| ==>
      MentionedFirst(tokens, Dedupe(tokens)[i], Dedupe(tokens)[j])
  {
    if tokens != [] {
      var front, last := tokens[..|tokens| - 1], tokens[|tokens| - 1];
      var before, names := Dedupe(front), Dedupe(tokens);
      DedupeKeepsTheOrder(front);
      DedupeKeepsTheNames(front);
      forall i, j | 0 <= i < j < |names|
        ensures MentionedFirst(tokens, names[i], names[j])
      {
        if j < |before| {
          MentionedStays(front, last, names[i], names[j]);
        } else {
          assert names[i] == before[i] && before[i] in before && names[j] == last && last !in front;
          var k :| 0 <= k < |front| && front[k] == names[i];
          assert tokens[..k + 1] == front[..k + 1];
        }
      }
    }
  }

  lemma MentionedStays(front: seq<string>, last: string, a: string, b: string)
    requires MentionedFirst(front, a, b)
    ensures MentionedFirst(front + [last], a, b)
  {
    var k :| 0 <= k < |front| && front[k] == a && b !in front[..k + 1];
    assert (front + [last])[k] == a && (front + [last])[..k + 1] == front[..k + 1];
  }

  /** The names of the order list that some extension has. */
  function Present(order: seq<string>, known: set<string>): seq<string> {
    Filter(n => n in known, order)
  }

  /**
   * The order asked for: first the extensions named by the order list, as it names them, then the
   * others by name; nothing is lost and nothing is added.
   */
  ghost predicate IsOrdered(r: seq<Extension>, was: seq<Extension>, tokens: seq<string>) {
    var wanted := Present(Dedupe(tokens), NamesOf(was));
    && multiset(r) == multiset(was)
    && |wanted| <= |r| && Names(r[..|wanted|]) == wanted
    && Ascending(r[|wanted|..])
  }

  /** Canonical form: with unique names the result does not depend on the order before. */
  lemma OrderIsCanonical(r: seq<Extension>, q: seq<Extension>, a: seq<Extension>, b: seq<Extension>,
                         tokens: seq<string>)
    requires IsOrdered(r, a, tokens) && IsOrdered(q, b, tokens)
    requires multiset(a) == multiset(b) && NamesUnique(a)
    ensures r == q
  {
    SameMembers(a, b);
    SameMembers(r, a);
    SameMembers(q, a);
    var k := |Present(Dedupe(tokens), NamesOf(a))|;
    SameFront(r, q, k);
    SameBack(r, q, k);
    SortedIsUnique(r[k..], q[k..]);
    assert r == r[..k] + r[k..] && q == q[..k] + q[k..];
  }

  lemma SameFront(r: seq<Extension>, q: seq<Extension>, k: nat)
    requires k <= |r| && k <= |q| && Names(r[..k]) == Names(q[..k]) && NamesTell(r) && forall x :: x in q ==> x in r
    ensures r[..k] == q[..k]
  {
    forall i | 0 <= i < k
      ensures r[i] == q[i]
    {
      assert Names(r[..k])[i] == Names(q[..k])[i];
    }
  }

  lemma SameBack(r: seq<Extension>, q: seq<Extension>, k: nat)
    requires k <= |r| && k <= |q| && r[..k] == q[..k] && multiset(r) == multiset(q)
    ensures multiset(r[k..]) == multiset(q[k..])
  {
    assert r == r[..k] + r[k..] && q == q[..k] + q[k..];
    assert multiset(r) == multiset(r[..k]) + multiset(r[k..]);
    assert multiset(q) == multiset(q[..k]) + multiset(q[k..]);
    assert multiset(r[k..]) == multiset(r) - multiset(r[..k]);
    assert multiset(q[k..]) == multiset(q) - multiset(q[..k]);
  }

  /** What the order list names stands in front: an extension behind it has a name the list does not mention. */
  lemma OthersAreNotNamed(r: seq<Extension>, was: seq<Extension>, tokens: seq<string>, i: nat)
    requires IsOrdered(r, was, tokens) && NamesUnique(was)
    requires |Present(Dedupe(tokens), NamesOf(was))| <= i < |r|
    ensures r[i].name !in tokens
  {
    var order, known := Dedupe(tokens), NamesOf(was);
    var wanted := Present(order, known);
    DedupeKeepsTheNames(tokens);
    SameMembers(r, was);
    RearrangingKeepsNamesUnique(was, r);
    FilterMembers(n => n in known, order);
    assert r[i].name in known;
    assert forall n :: n in tokens && n in known ==> n in wanted;
    assert forall k :: 0 <= k < |wanted| ==> r[k].name == wanted[k] by {
      assert forall k :: 0 <= k < |wanted| ==> Names(r[..|wanted|])[k] == r[k].name;
    }
  }

  lemma {:induction false} PresentKeepsTheOrder(tokens: seq<string>, order: seq<string>, known: set<string>)
    requires forall i, j :: 0 <= i < j < |order| ==> MentionedFirst(tokens, order[i], order[j])
    ensures var names := Present(order, known);
      forall i, j :: 0 <= i < j < |names| ==> MentionedFirst(tokens, names[i], names[j])
  {
    if order != [] {
      PresentKeepsTheOrder(tokens, order[1..], known);
      FilterMembers(n => n in known, order[1..]);
      var names, rest := Present(order, known), Present(order[1..], known);
      forall i, j | 0 <= i < j < |names|
        ensures MentionedFirst(tokens, names[i], names[j])
      {
        if order[0] in known {
          assert names[j] == rest[j - 1] && rest[j - 1] in order[1..];
          var k :| 0 <= k < |order[1..]| && order[1..][k] == names[j];
          assert order[k + 1] == names[j];
          assert i > 0 ==> names[i] == rest[i - 1];
        }
      }
    }
  }

  /** The extensions that the list mentions lead, in the order in which it mentions them first; the others follow by
      name. */
  lemma OrderedByMention(r: seq<Extension>, was: seq<Extension>, tokens: seq<string>, i: nat, j: nat)
    requires IsOrdered(r, was, tokens) && NamesUnique(was) && i < j < |r|
    ensures r[j].name in tokens ==> r[i].name in tokens && MentionedFirst(tokens, r[i].name, r[j].name)
    ensures r[i].name !in tokens ==> r[j].name !in tokens && Less(r[i].name, r[j].name)
  {
    var order, known := Dedupe(tokens), NamesOf(was);
    var wanted := Present(order, known);
    DedupeKeepsTheNames(tokens);
    DedupeKeepsTheOrder(tokens);
    PresentKeepsTheOrder(tokens, order, known);
    FilterMembers(n => n in known, order);
    SameMembers(r, was);
    RearrangingKeepsNamesUnique(was, r);
    LessIsTotal(r[i].name, r[j].name);
    if j < |wanted| {
      FrontIsWanted(r, wanted, i);
      FrontIsWanted(r, wanted, j);
    } else {
      OthersAreNotNamed(r, was, tokens, j);
      if i < |wanted| {
        FrontIsWanted(r, wanted, i);
      } else {
        assert r[i] == r[|wanted|..][i - |wanted|] && r[j] == r[|wanted|..][j - |wanted|];
      }
    }
  }

  lemma FrontIsWanted(r: seq<Extension>, wanted: seq<string>, i: nat)
    requires i < |wanted| <= |r| && Names(r[..|wanted|]) == wanted
    ensures r[i].name == wanted[i] && r[i].name in wanted
  {
    assert Names(r[..|wanted|])[i] == r[i].name;
  }

  lemma PresentGrows(order: seq<string>, known: set<string>, i: nat)
    requires i < |order|
    ensures order[i] in known ==> Present(order[..i + 1], known) == Present(order[..i], known) + [order[i]]
    ensures order[i] !in known ==> Present(order[..i + 1], known) == Present(order[..i], known)
  {
    assert order[..i + 1] == order[..i] + [order[i]];
    FilterConcat(n => n in known, order[..i], [order[i]]);
    assert Filter(n => n in known, [order[i]]) == if order[i] in known then [order[i]] else [];
  }

  function Insert(e: Extension, s: seq<Extension>): seq<Extension> {
    if s == [] || Less(e.name, s[0].name) then [e] + s else [s[0]] + Insert(e, s[1..])
  }

  /** What `std::sort` makes of `s`; SortedIsUnique says that the algorithm does not matter. */
  function SortedByName(s: seq<Extension>): seq<Extension> {
    if s == [] then [] else Insert(s[0], SortedByName(s[1..]))
  }

  lemma {:induction false} InsertKeepsAscending(e: Extension, s: seq<Extension>)
    requires Ascending(s)
    ensures Ascending(Insert(e, s)) && multiset(Insert(e, s)) == multiset(s) + multiset{e}
  {
    if s == [] {
    } else if Less(e.name, s[0].name) {
      LessIsTotal(e.name, s[0].name);
      forall j | 0 <= j < |s|
        ensures !Less(s[j].name, e.name)
      {
        LessIsTotal(s[0].name, s[0].name);
        LessIsTransitive(e.name, s[0].name, s[j].name);
      }
    } else {
      assert s == [s[0]] + s[1..];
      InsertKeepsAscending(e, s[1..]);
      var rest := Insert(e, s[1..]);
      forall j | 0 <= j < |rest|
        ensures !Less(rest[j].name, s[0].name)
      {
        assert rest[j] in multiset(s[1..]) + multiset{e};
      }
    }
  }

  lemma {:induction false} SortedByNameSorts(s: seq<Extension>)
    ensures Ascending(SortedByName(s)) && multiset(SortedByName(s)) == multiset(s)
  {
    if s != [] {
      SortedByNameSorts(s[1..]);
      InsertKeepsAscending(s[0], SortedByName(s[1..]));
      assert s == [s[0]] + s[1..];
    }
  }

  function Swapped(s: seq<Extension>, i: nat, j: nat): seq<Extension>
    requires i < |s| && j < |s|
  {
    s[i := s[j]][j := s[i]]
  }

  /** One turn of the ordering loop: the extension named next goes behind those placed already. */
  lemma Placed(s: seq<Extension>, order: seq<string>, known: set<string>, i: nat, it: nat)
    requires Distinct(order) && i < |order| && it < |s| && s[it].name == order[i] && order[i] in known
    requires |Present(order[..i], known)| <= |s|
    requires Names(s[..|Present(order[..i], known)|]) == Present(order[..i], known)
    ensures var count := |Present(order[..i], known)|;
      && count <= it && multiset(Swapped(s, count, it)) == multiset(s)
      && Names(Swapped(s, count, it)[..count + 1]) == Present(order[..i + 1], known)
  {
    var wanted := Present(order[..i], known);
    var count := |wanted|;
    FilterMembers(n => n in known, order[..i]);
    PresentGrows(order, known, i);
    assert order[i] !in wanted;
    assert forall k :: 0 <= k < count ==> s[k].name == wanted[k] by {
      assert forall k :: 0 <= k < count ==> Names(s[..count])[k] == s[k].name;
    }
    var t := Swapped(s, count, it);
    assert Names(t[..count + 1]) == Names(s[..count]) + [order[i]];
  }

  // ---- Loading ---------------------------------------------------------------------------------

  /** A directory entry; `loads` says whether the file can be read as an extension of the first kind. */
  datatype Entry = File(filename: string, loads: bool) | Folder(filename: string, content: Directory)

  /** A directory: the extension its manifest describes, if it has a valid one, and its entries. */
  datatype Directory = Directory(path: string, manifest: Option<Extension>, entries: seq<Entry>)

  function Path(directory: string, filename: string): string {
    directory + "/" + filename
  }

  /** The position of the last dot, or the length. */
  function LastDot(fileName: string): (r: nat)
    ensures r <= |fileName| && (r < |fileName| ==> fileName[r] == '.')
    ensures forall k :: r < k < |fileName| ==> fileName[k] != '.'
    ensures r == |fileName| ==> '.' !in fileName
  {
    if fileName == [] then 0
    else if fileName[|fileName| - 1] == '.' then |fileName| - 1
    else
      var r := LastDot(fileName[..|fileName| - 1]);
      if r == |fileName| - 1 then |fileName| else r
  }

  /** `GetExtensionName`: the file name without its last suffix. */
  function ExtensionName(fileName: string): string {
    fileName[..LastDot(fileName)]
  }

  /** A name keeps all its dots but the last. */
  lemma NameOfFile(stem: string, suffix: string)
    ensures '.' !in suffix ==> ExtensionName(stem + "." + suffix) == stem
    ensures '.' !in stem ==> ExtensionName(stem) == stem
  {
    var fileName := stem + "." + suffix;
    if '.' !in suffix {
      var r := LastDot(fileName);
      assert fileName[|stem|] == '.';
      assert forall k :: |stem| < k < |fileName| ==> fileName[k] in suffix;
      assert r == |stem|;
    }
    assert stem[..|stem|] == stem;
  }

  function IsHidden(filename: string): bool {
    filename != [] && (filename[0] == '.' || filename[0] == '_')
  }

  /** The extension a plain file stands for, in a directory below the root or (`isSubDir`) one level deeper. */
  function FromFile(directory: string, isSubDir: bool, filename: string): Extension {
    var entry := Path(directory, filename);
    Extension(ExtensionName(filename), entry, if isSubDir then directory else entry)
  }

  /** The list after a directory is loaded: a manifest with a free name hides the files beside it. */
  function Loaded(dir: Directory, isSubDir: bool, s: seq<Extension>): seq<Extension>
    decreases if isSubDir then 0 else 1, |dir.entries| + 1
  {
    if dir.manifest.Some? && dir.manifest.value.name !in NamesOf(s) then s + [dir.manifest.value]
    else EntriesLoaded(dir.path, dir.entries, isSubDir, s)
  }

  /** First come, first served: each entry in turn, and folders one level deep. */
  function EntriesLoaded(path: string, entries: seq<Entry>, isSubDir: bool, s: seq<Extension>): seq<Extension>
    decreases if isSubDir then 0 else 1, |entries|
  {
    if entries == [] then s
    else
      var before := EntriesLoaded(path, entries[..|entries| - 1], isSubDir, s);
      var e := entries[|entries| - 1];
      if IsHidden(e.filename) then before
      else match e
        case File(filename, loads) =>
          if !loads || ExtensionName(filename) in NamesOf(before) then before
          else before + [FromFile(path, isSubDir, filename)]
        case Folder(_, content) => if isSubDir then before else Loaded(content, true, before)
  }

  /** What loading a directory may do to the list: add extensions behind, under names that are not taken. */
  predicate Extends(s: seq<Extension>, r: seq<Extension>) {
    s <= r && (NamesUnique(s) ==> NamesUnique(r)) && NamesOf(s) <= NamesOf(r)
  }

  lemma AddingExtends(s: seq<Extension>, r: seq<Extension>, e: Extension)
    requires Extends(s, r) && e.name !in NamesOf(r)
    ensures Extends(s, r + [e]) && NamesOf(r + [e]) == NamesOf(r) + {e.name}
  {
    assert forall k :: 0 <= k < |r| ==> r[k] in r && r[k].name in NamesOf(r);
    assert forall x :: x in r + [e] <==> x in r || x == e;
  }

  /** No directory tree can bring a name in twice or push an extension out. */
  lemma {:induction false} LoadingKeepsNamesUnique(dir: Directory, isSubDir: bool, s: seq<Extension>)
    ensures Extends(s, Loaded(dir, isSubDir, s))
    decreases if isSubDir then 0 else 1, |dir.entries| + 1
  {
    if dir.manifest.Some? && dir.manifest.value.name !in NamesOf(s) {
      AddingExtends(s, s, dir.manifest.value);
    } else {
      EntriesKeepNamesUnique(dir.path, dir.entries, isSubDir, s);
    }
  }

  lemma {:induction false} EntriesKeepNamesUnique(path: string, entries: seq<Entry>, isSubDir: bool, s: seq<Extension>)
    ensures Extends(s, EntriesLoaded(path, entries, isSubDir, s))
    decreases if isSubDir then 0 else 1, |entries|
  {
    if entries != [] {
      var before := EntriesLoaded(path, entries[..|entries| - 1], isSubDir, s);
      EntriesKeepNamesUnique(path, entries[..|entries| - 1], isSubDir, s);
      match entries[|entries| - 1]
      case File(filename, loads) =>
        if ExtensionName(filename) !in NamesOf(before) {
          AddingExtends(s, before, FromFile(path, isSubDir, filename));
        }
      case Folder(_, content) =>
        if !isSubDir {
          LoadingKeepsNamesUnique(content, true, before);
        }
    }
  }

  /** Every visible file that loads is found under its name afterwards, and so is a sub-directory's manifest. */
  lemma {:induction false} EntriesAreFound(path: string, entries: seq<Entry>, isSubDir: bool, s: seq<Extension>, k: nat)
    requires k < |entries| && (entries[k].filename == [] || entries[k].filename[0] !in {'.', '_'})
    ensures var names := NamesOf(EntriesLoaded(path, entries, isSubDir, s));
      match entries[k]
      case File(filename, loads) => loads ==> ExtensionName(filename) in names
      case Folder(_, content) => !isSubDir && content.manifest.Some? ==> content.manifest.value.name in names
    decreases |entries|
  {
    var last := |entries| - 1;
    var before := EntriesLoaded(path, entries[..last], isSubDir, s);
    EntriesKeepNamesUnique(path, entries[..last], isSubDir, s);
    if k < last {
      EntriesAreFound(path, entries[..last], isSubDir, s, k);
    }
    match entries[last]
    case File(filename, loads) =>
      if ExtensionName(filename) !in NamesOf(before) {
        AddingExtends(s, before, FromFile(path, isSubDir, filename));
      }
    case Folder(_, content) =>
      LoadingKeepsNamesUnique(content, true, before);
      if content.manifest.Some? && content.manifest.value.name !in NamesOf(before) {
        AddingExtends(s, before, content.manifest.value);
      }
  }

  /** A file or folder whose name begins with a dot or an underscore might as well not be there. */
  lemma {:induction false} HiddenStaysOut(path: string, entries: seq<Entry>, isSubDir: bool, s: seq<Extension>, k: nat)
    requires k < |entries| && entries[k].filename != [] && entries[k].filename[0] in {'.', '_'}
    ensures EntriesLoaded(path, entries, isSubDir, s) == EntriesLoaded(path, WithoutEntry(entries, k), isSubDir, s)
    decreases |entries|
  {
    var last := |entries| - 1;
    var rest := WithoutEntry(entries, k);
    if k == last {
      assert rest == entries[..last];
    } else {
      HiddenStaysOut(path, entries[..last], isSubDir, s, k);
      assert rest[..last - 1] == WithoutEntry(entries[..last], k) && rest[last - 1] == entries[last];
    }
  }

  function WithoutEntry(entries: seq<Entry>, k: nat): seq<Entry>
    requires k < |entries|
  {
    entries[..k] + entries[k + 1..]
  }

  /** What is listed earlier is loaded earlier, and stays. */
  lemma {:induction false} EntriesGrow(path: string, entries: seq<Entry>, isSubDir: bool, s: seq<Extension>, k: nat)
    requires k <= |entries|
    ensures Extends(EntriesLoaded(path, entries[..k], isSubDir, s), EntriesLoaded(path, entries, isSubDir, s))
    decreases |entries|
  {
    var last := |entries| - 1;
    if k == |entries| {
      assert entries[..k] == entries;
    } else {
      EntriesGrow(path, entries[..last], isSubDir, s, k);
      assert entries[..last][..k] == entries[..k];
      LastEntryExtends(path, entries, isSubDir, s);
    }
  }

  lemma LastEntryExtends(path: string, entries: seq<Entry>, isSubDir: bool, s: seq<Extension>)
    requires entries != []
    ensures var before := EntriesLoaded(path, entries[..|entries| - 1], isSubDir, s);
      Extends(before, EntriesLoaded(path, entries, isSubDir, s))
  {
    var before := EntriesLoaded(path, entries[..|entries| - 1], isSubDir, s);
    match entries[|entries| - 1]
    case File(filename, loads) =>
      if ExtensionName(filename) !in NamesOf(before) {
        AddingExtends(before, before, FromFile(path, isSubDir, filename));
      }
    case Folder(_, content) =>
      LoadingKeepsNamesUnique(content, true, before);
  }

  /** The first visible file that loads under a name gets it, with its own path as entry, and as location too unless it
      lies in a sub-directory, which then is the location. */
  lemma FirstFileWins(path: string, entries: seq<Entry>, isSubDir: bool, s: seq<Extension>, k: nat)
    requires k < |entries| && entries[k].File? && entries[k].loads
    requires entries[k].filename == [] || entries[k].filename[0] !in {'.', '_'}
    requires ExtensionName(entries[k].filename) !in NamesOf(EntriesLoaded(path, entries[..k], isSubDir, s))
    ensures var filename := entries[k].filename;
      var entry := path + "/" + filename;
      Extension(ExtensionName(filename), entry, if isSubDir then path else entry)
        in EntriesLoaded(path, entries, isSubDir, s)
  {
    var upTo := entries[..k + 1];
    assert upTo[..k] == entries[..k];
    EntriesGrow(path, entries, isSubDir, s, k + 1);
    var before := EntriesLoaded(path, entries[..k], isSubDir, s);
    assert EntriesLoaded(path, upTo, isSubDir, s) == before + [FromFile(path, isSubDir, entries[k].filename)];
    assert EntriesLoaded(path, upTo, isSubDir, s)[|before|] in EntriesLoaded(path, entries, isSubDir, s);
  }

  /** What a directory has to offer: its manifest, its visible files that load, and what its folders offer likewise. */
  predicate Offers(dir: Directory, isSubDir: bool, x: Extension)
    decreases if isSubDir then 0 else 1, 1
  {
    dir.manifest == Some(x) || exists e :: e in dir.entries && EntryOffers(dir.path, e, isSubDir, x)
  }

  predicate EntryOffers(path: string, e: Entry, isSubDir: bool, x: Extension)
    decreases if isSubDir then 0 else 1, 0
  {
    && (e.filename == [] || e.filename[0] !in {'.', '_'})
    && match e
       case File(filename, loads) =>
         && loads && x.name == ExtensionName(filename) && x.entry == path + "/" + filename
         && x.location == if isSubDir then path else x.entry
       case Folder(_, content) => !isSubDir && Offers(content, true, x)
  }

  /** Nothing else comes in: no hidden file, none that does not load, none from two levels down. */
  lemma {:induction false} OnlyOffersComeIn(dir: Directory, isSubDir: bool, s: seq<Extension>, x: Extension)
    ensures x in Loaded(dir, isSubDir, s) ==> x in s || Offers(dir, isSubDir, x)
    decreases if isSubDir then 0 else 1, |dir.entries| + 1
  {
    if !(dir.manifest.Some? && dir.manifest.value.name !in NamesOf(s)) {
      OnlyEntriesComeIn(dir.path, dir.entries, isSubDir, s, x);
    }
  }

  lemma {:induction false} OnlyEntriesComeIn(path: string, entries: seq<Entry>, isSubDir: bool, s: seq<Extension>,
                                             x: Extension)
    ensures x in EntriesLoaded(path, entries, isSubDir, s) ==>
      x in s || exists e :: e in entries && EntryOffers(path, e, isSubDir, x)
    decreases if isSubDir then 0 else 1, |entries|
  {
    if entries != [] {
      var last := |entries| - 1;
      assert entries[last] in entries;
      OnlyEntriesComeIn(path, entries[..last], isSubDir, s, x);
      match entries[last]
      case File(_, _) =>
      case Folder(_, content) =>
        if !isSubDir {
          OnlyOffersComeIn(content, true, EntriesLoaded(path, entries[..last], isSubDir, s), x);
        }
    }
  }

  /** A directory with a manifest of a free name is that one extension, whatever files lie beside it. */
  lemma ManifestStandsForAll(dir: Directory, isSubDir: bool, s: seq<Extension>)
    requires dir.manifest.Some? && forall x :: x in s ==> x.name != dir.manifest.value.name
    ensures Loaded(dir, isSubDir, s) == s + [dir.manifest.value]
  {
  }

  function AllLoaded(dirs: seq<Directory>): seq<Extension> {
    if dirs == [] then [] else Loaded(dirs[|dirs| - 1], false, AllLoaded(dirs[..|dirs| - 1]))
  }

  class Manager {
    var extensions: seq<Extension>

    constructor ()
      ensures extensions == []
    {
      extensions := [];
    }

    /** `GetByName`: the first extension of that name, or the end. */
    method GetByName(name: string) returns (it: nat)
      ensures it <= |extensions| && forall k :: 0 <= k < it ==> extensions[k].name != name
      ensures it < |extensions| ==> extensions[it].name == name
      ensures it < |extensions| <==> name in NamesOf(extensions)
    {
      it := 0;
      while it < |extensions| && extensions[it].name != name
        invariant it <= |extensions| && forall k :: 0 <= k < it ==> extensions[k].name != name
      {
        it := it + 1;
      }
      if it < |extensions| {
        assert extensions[it] in extensions;
      }
    }

    method Exists(name: string) returns (r: bool)
      ensures r <==> name in NamesOf(extensions)
    {
      var it := GetByName(name);
      r := it < |extensions|;
    }

    /** `LoadExtensionDir`. */
    method LoadExtensionDir(dir: Directory, isSubDir: bool)
      modifies this
      ensures extensions == Loaded(dir, isSubDir, old(extensions))
      decreases if isSubDir then 0 else 1
    {
      if dir.manifest.Some? {
        var known := Exists(dir.manifest.value.name);
        if !known {
          extensions := extensions + [dir.manifest.value];
          return;
        }
      }
      var i := 0;
      while i < |dir.entries|
        invariant i <= |dir.entries|
        invariant extensions == EntriesLoaded(dir.path, dir.entries[..i], isSubDir, old(extensions))
      {
        assert dir.entries[..i + 1][..i] == dir.entries[..i];
        var e := dir.entries[i];
        i := i + 1;
        if IsHidden(e.filename) {
          continue;
        }
        match e
        case File(filename, loads) =>
          var known := Exists(ExtensionName(filename));
          if known {
            continue;
          }
          if loads {
            extensions := extensions + [FromFile(dir.path, isSubDir, filename)];
          }
        case Folder(_, content) =>
          if !isSubDir {
            LoadExtensionDir(content, true);
          }
      }
      assert dir.entries[..i] == dir.entries;
    }

    /** `LoadExtensions`: all configured directories, and then the order. */
    method LoadExtensions(dirs: seq<Directory>, tokens: seq<string>)
      modifies this
      ensures IsOrdered(extensions, AllLoaded(dirs), tokens) && NamesUnique(extensions)
    {
      extensions := [];
      var i := 0;
      while i < |dirs|
        invariant i <= |dirs| && extensions == AllLoaded(dirs[..i]) && NamesUnique(extensions)
      {
        assert dirs[..i + 1][..i] == dirs[..i];
        LoadingKeepsNamesUnique(dirs[i], false, extensions);
        LoadExtensionDir(dirs[i], false);
        i := i + 1;
      }
      assert dirs[..i] == dirs;
      Sort(tokens);
    }

    /** Swaps the extensions that `order` names to the front, in its order, and counts them. */
    method PlaceOrdered(order: seq<string>) returns (count: nat)
      requires Distinct(order)
      modifies this
      ensures multiset(extensions) == old(multiset(extensions))
      ensures count == |Present(order, old(NamesOf(extensions)))| <= |extensions|
      ensures Names(extensions[..count]) == Present(order, old(NamesOf(extensions)))
    {
      ghost var was, known := extensions, NamesOf(extensions);
      count := 0;
      var i := 0;
      while i < |order|
        invariant i <= |order| && multiset(extensions) == multiset(was)
        invariant count == |Present(order[..i], known)| <= |extensions|
        invariant Names(extensions[..count]) == Present(order[..i], known)
      {
        SameMembers(extensions, was);
        PresentGrows(order, known, i);
        var it := GetByName(order[i]);
        if it < |extensions| {
          Placed(extensions, order, known, i, it);
          extensions := Swapped(extensions, count, it);
          count := count + 1;
        }
        i := i + 1;
      }
      assert order[..i] == order;
      assert |extensions| == |multiset(extensions)|;
    }

    /** `Sort` on the names of the order option. */
    method Sort(tokens: seq<string>)
      modifies this
      ensures IsOrdered(extensions, old(extensions), tokens)
      ensures old(NamesUnique(extensions)) ==> NamesUnique(extensions)
    {
      ghost var was := extensions;
      var order: seq<string> := [];
      var t := 0;
      while t < |tokens|
        invariant t <= |tokens| && order == Dedupe(tokens[..t])
      {
        assert tokens[..t + 1][..t] == tokens[..t];
        if tokens[t] !in order {
          order := order + [tokens[t]];
        }
        t := t + 1;
      }
      assert tokens[..t] == tokens;
      DedupeKeepsTheNames(tokens);
      var count := PlaceOrdered(order);
      var placed := extensions;
      SortedByNameSorts(placed[count..]);
      extensions := placed[..count] + SortedByName(placed[count..]);
      SuffixSorted(placed, count, SortedByName(placed[count..]));
      assert extensions[..count] == placed[..count];
      if NamesUnique(was) {
        RearrangingKeepsNamesUnique(was, extensions);
      }
    }
  }

  lemma SuffixSorted(s: seq<Extension>, count: nat, suffix: seq<Extension>)
    requires count <= |s| && multiset(suffix) == multiset(s[count..])
    ensures multiset(s[..count] + suffix) == multiset(s)
    ensures (s[..count] + suffix)[count..] == suffix
  {
    assert s == s[..count] + s[count..];
    assert multiset(s) == multiset(s[..count]) + multiset(s[count..]);
  }
}
