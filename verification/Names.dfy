/** Graph resource names: canonical form, resolution and remapping. */
module Names {
  import opened Basics
  import opened Schema
  import opened FieldText

  // ---------------------------------------------------------------- words

  /** strings.Split on '/'. */
  function Split(s: string): (parts: seq<string>)
    ensures parts != [] && forall p <- parts :: '/' !in p
    decreases |s|
  {
    var i := Index(s, '/');
    if i < 0 then [s] else [s[..i]] + Split(s[i + 1..])
  }

  function NonEmpty(parts: seq<string>): (words: seq<string>)
    ensures forall w <- words :: w != "" && w in parts
  {
    if parts == [] then []
    else if parts[0] == "" then NonEmpty(parts[1..])
    else [parts[0]] + NonEmpty(parts[1..])
  }

  function Words(s: string): seq<string>
  {
    NonEmpty(Split(s))
  }

  /** strings.Join with '/'. */
  function Join(words: seq<string>): string
  {
    if words == [] then ""
    else if |words| == 1 then words[0]
    else words[0] + "/" + Join(words[1..])
  }

  /** canonicalizeName; it slices the first byte, so the name must not be empty. */
  function Canonicalize(name: string): string
    requires name != ""
  {
    if name == "/" then name
    else if name[0] == '/' then "/" + Join(Words(name))
    else Join(Words(name))
  }

  method CanonicalizeName(name: string) returns (result: string)
    requires name != ""
    ensures result == Canonicalize(name)
  {
    if name == "/" {
      return name;
    }
    var components: seq<string> := [];
    var parts := Split(name);
    assert parts[0..] == parts;
    var i := 0;
    while i < |parts|
      invariant i <= |parts|
      invariant NonEmpty(parts) == components + NonEmpty(parts[i..])
    {
      assert parts[i..][0] == parts[i] && parts[i..][1..] == parts[i + 1..];
      if |parts[i]| > 0 {
        components := components + [parts[i]];
      }
      i := i + 1;
    }
    assert parts[i..] == [];
    assert Words(name) == components;
    result := if name[0] == '/' then "/" + Join(components) else Join(components);
  }

  // ---------------------------------------------------------------- canonical names

  /** No empty component at either end or in the middle. */
  predicate Tidy(s: string)
  {
    && s != "" && s[0] != '/' && s[|s| - 1] != '/'
    && forall i | 0 <= i < |s| - 1 :: !(s[i] == '/' && s[i + 1] == '/')
  }

  predicate CanonicalGlobal(s: string)
  {
    s == "/" || (s != "" && s[0] == '/' && Tidy(s[1..]))
  }

  predicate AreWords(words: seq<string>)
  {
    forall w <- words :: w != "" && '/' !in w
  }

  lemma WordsAreWords(s: string)
    ensures AreWords(Words(s))
  {
  }

  lemma {:induction false} JoinIsTidy(words: seq<string>)
    requires words != [] && AreWords(words)
    ensures Tidy(Join(words))
  {
    assert words[0] in words;
    if |words| > 1 {
      assert forall w <- words[1..] :: w in words;
      JoinIsTidy(words[1..]);
      TidyConcat(words[0], Join(words[1..]));
    } else {
      PlainIsTidy(words[0]);
    }
  }

  lemma PlainIsTidy(w: string)
    requires w != "" && '/' !in w
    ensures Tidy(w)
  {
  }

  lemma TidyConcat(w: string, t: string)
    requires w != "" && '/' !in w && Tidy(t)
    ensures Tidy(w + "/" + t)
  {
  }

  lemma WordsOfOne(w: string)
    requires w != "" && '/' !in w
    ensures Words(w) == [w]
  {
    BeforeNone(w, '/');
    assert NonEmpty([w]) == [w] + NonEmpty([]);
  }

  lemma WordsNext(w: string, tail: string)
    requires w != "" && '/' !in w
    ensures Words(w + "/" + tail) == [w] + Words(tail)
  {
    var s := w + ['/'] + tail;
    BeforeMark(w, '/', tail);
    assert s[|w| + 1..] == tail && s[..|w|] == w;
    assert Split(s) == [w] + Split(tail);
  }

  lemma JoinNext(w: string, words: seq<string>)
    requires words != []
    ensures Join([w] + words) == w + "/" + Join(words)
  {
    assert ([w] + words)[1..] == words;
  }

  lemma TidyTail(s: string, i: nat)
    requires Tidy(s) && i < |s| && s[i] == '/'
    ensures 0 < i && i + 1 < |s| && Tidy(s[i + 1..])
  {
    var t := s[i + 1..];
    assert t != "" && t[0] == s[i + 1] && t[|t| - 1] == s[|s| - 1];
  }

  /** A tidy name is its words joined: canonicalising it changes nothing. */
  lemma {:induction false} TidyIsFixed(s: string)
    requires Tidy(s)
    ensures Join(Words(s)) == s && Words(s) != []
    decreases |s|
  {
    hide Split, NonEmpty, Words, Join, Index;
    var i := Index(s, '/');
    if i < 0 {
      WordsOfOne(s);
      JoinOne(s);
    } else {
      var w, t := s[..i], s[i + 1..];
      TidyTail(s, i);
      TidyIsFixed(t);
      assert s == w + "/" + t;
      WordsNext(w, t);
      JoinNext(w, Words(t));
    }
  }

  lemma LeadingSlash(s: string)
    ensures Words("/" + s) == Words(s)
  {
  }

  lemma CanonicalIsFixed(s: string)
    requires CanonicalGlobal(s)
    ensures Canonicalize(s) == s
  {
    if s != "/" {
      assert s == "/" + s[1..];
      LeadingSlash(s[1..]);
      TidyIsFixed(s[1..]);
    }
  }

  /** Canonicalising a name with a leading slash gives a canonical global name. */
  lemma GlobalBecomesCanonical(name: string)
    requires name != "" && name[0] == '/'
    ensures CanonicalGlobal(Canonicalize(name))
  {
    WordsAreWords(name);
    if name != "/" {
      var r := "/" + Join(Words(name));
      if Words(name) == [] {
        assert r == "/";
      } else {
        JoinIsTidy(Words(name));
        assert r[1..] == Join(Words(name));
      }
    }
  }

  lemma RelativeStaysRelative(name: string)
    requires name != "" && name[0] != '/'
    ensures Canonicalize(name) != "" && Canonicalize(name)[0] == name[0]
  {
  }

  // ---------------------------------------------------------------- node names

  /** `Crash`: a name of nothing but slashes has no last component to slice off. */
  datatype Qualified = Qualified(namespace: string, base: string) | Refused | Crash

  function Qualify(nodeName: string): Qualified
  {
    if nodeName == "" || nodeName[0] == '~' then Refused
    else
      var components := Words(Canonicalize(nodeName));
      var n := |components|;
      if n == 0 then Crash
      else if n == 1 then Qualified("/", components[0])
      else Qualified("/" + Join(components[..n - 1]), components[n - 1])
  }

  /** Which node names are refused, and which crash: the empty one and private ones, and those of nothing but
      slashes. */
  lemma QualifyIff(nodeName: string)
    ensures Qualify(nodeName).Refused? <==> nodeName == "" || nodeName[0] == '~'
    ensures Qualify(nodeName).Crash? <==> nodeName != "" && forall c <- nodeName :: c == '/'
  {
    hide Words, Canonicalize, Join;
    if nodeName != "" {
      assert nodeName[0] in nodeName;
      WordsOfCanonical(nodeName);
      NoWordsIff(nodeName);
    }
  }

  lemma {:induction false} NoWordsIff(s: string)
    ensures Words(s) == [] <==> forall c <- s :: c == '/'
    decreases |s|
  {
    hide Index, Words;
    var i := Index(s, '/');
    if i >= 0 {
      var w, t := s[..i], s[i + 1..];
      assert s == w + "/" + t;
      NoWordsIff(t);
      WordsConcat(w, t);
      if w == "" {
        NoWords();
        assert Words(s) == Words(t);
        assert (forall c <- t :: c in s) && forall c <- s :: c == '/' || c in t;
      } else {
        assert w[0] in s && w[0] != '/';
        WordsOfOne(w);
      }
    } else if s == "" {
      NoWords();
    } else {
      assert s[0] in s;
      WordsOfOne(s);
    }
  }

  method QualifyNodeName(nodeName: string) returns (q: Qualified)
    ensures q == Qualify(nodeName)
  {
    if nodeName == "" || nodeName[0] == '~' {
      return Refused;
    }
    var canonName := CanonicalizeName(nodeName);
    var components: seq<string> := [];
    var parts := Split(canonName);
    assert parts[0..] == parts;
    var i := 0;
    while i < |parts|
      invariant i <= |parts|
      invariant NonEmpty(parts) == components + NonEmpty(parts[i..])
    {
      assert parts[i..][0] == parts[i] && parts[i..][1..] == parts[i + 1..];
      if |parts[i]| > 0 {
        components := components + [parts[i]];
      }
      i := i + 1;
    }
    assert parts[i..] == [];
    assert Words(canonName) == components;
    var n := |components|;
    if n == 0 {
      return Crash;
    }
    q := if n == 1 then Qualified("/", components[0])
         else Qualified("/" + Join(components[..n - 1]), components[n - 1]);
  }

  lemma {:induction false} WordsOfJoin(words: seq<string>)
    requires AreWords(words)
    ensures Words(Join(words)) == words
  {
    hide Words;
    if words == [] {
      NoWords();
    } else if |words| == 1 {
      assert words[0] in words;
      WordsOfOne(words[0]);
    } else {
      assert words[0] in words && forall x <- words[1..] :: x in words;
      WordsOfJoin(words[1..]);
      WordsNext(words[0], Join(words[1..]));
    }
  }

  lemma NoWords()
    ensures Words("") == []
  {
  }

  lemma {:induction false} JoinSnoc(words: seq<string>, w: string)
    requires words != []
    ensures Join(words + [w]) == Join(words) + "/" + w
  {
    if |words| > 1 {
      JoinSnoc(words[1..], w);
      assert (words + [w])[1..] == words[1..] + [w];
    } else {
      assert (words + [w])[1..] == [w];
    }
  }

  lemma WordsOfCanonical(name: string)
    requires name != ""
    ensures Words(Canonicalize(name)) == Words(name)
  {
    hide Split, NonEmpty, Join;
    WordsAreWords(name);
    WordsOfJoin(Words(name));
    LeadingSlash(Join(Words(name)));
  }

  /** A qualified node name: the namespace is a canonical global name, the base is one component, and
      putting them back together gives the global form of the name that was passed. */
  lemma QualifiedRejoins(nodeName: string)
    requires Qualify(nodeName).Qualified?
    ensures var q := Qualify(nodeName);
            && CanonicalGlobal(q.namespace) && q.base != "" && '/' !in q.base
            && Canonicalize(q.namespace + "/" + q.base) == Canonicalize("/" + nodeName)
  {
    hide Words, Tidy, Canonicalize, Join;
    var words := Words(nodeName);
    var q := Qualify(nodeName);
    WordsOfCanonical(nodeName);
    WordsAreWords(nodeName);
    assert q.base in words;
    var init := words[..|words| - 1];
    assert words == init + [q.base];
    CanonicalOfSlash(nodeName);
    if |words| == 1 {
      RejoinedOne(q.base);
    } else {
      RejoinedMany(init, q.base);
    }
  }

  lemma CanonicalOfSlash(s: string)
    ensures Canonicalize("/" + s) == "/" + Join(Words(s))
  {
    hide Words;
    LeadingSlash(s);
    if s == "" {
      NoWords();
    }
  }

  lemma RejoinedOne(base: string)
    requires base != "" && '/' !in base
    ensures Canonicalize("/" + "/" + base) == "/" + base && Join([base]) == base
  {
    hide Words, Canonicalize, Join;
    assert "/" + "/" + base == "/" + ("/" + base);
    CanonicalOfSlash("/" + base);
    LeadingSlash(base);
    WordsOfOne(base);
    JoinOne(base);
  }

  lemma JoinOne(w: string)
    ensures Join([w]) == w
  {
  }

  lemma RejoinedMany(init: seq<string>, base: string)
    requires init != [] && AreWords(init + [base])
    ensures CanonicalGlobal("/" + Join(init))
    ensures Canonicalize("/" + Join(init) + "/" + base) == "/" + Join(init + [base])
  {
    hide Words, Tidy, Canonicalize, Join;
    assert forall w <- init :: w in init + [base];
    WordsOfJoin(init + [base]);
    JoinSnoc(init, base);
    assert "/" + Join(init) + "/" + base == "/" + Join(init + [base]);
    CanonicalOfSlash(Join(init + [base]));
    JoinIsTidy(init);
    assert ("/" + Join(init))[1..] == Join(init);
  }

  // ---------------------------------------------------------------- resolution

  /** A resolver: the node's name, its canonical namespace, and the resolved remappings. */
  datatype Resolver = Resolver(nodeName: string, namespace: string, mapping: map<string, string>)

  function Resolve(n: Resolver, name: string): string
    requires n.namespace != ""
  {
    if name == "" then n.namespace
    else
      var canon := Canonicalize(name);
      if canon != "" && canon[0] == '/' then canon
      else if canon != "" && canon[0] == '~' then Canonicalize(n.namespace + "/" + n.nodeName + "/" + canon[1..])
      else Canonicalize(n.namespace + "/" + canon)
  }

  function Remap(n: Resolver, name: string): string
    requires n.namespace != ""
  {
    var key := Resolve(n, name);
    if key in n.mapping then n.mapping[key] else key
  }

  /** With a global namespace, every name resolves to a canonical global one. */
  lemma ResolveIsCanonical(n: Resolver, name: string)
    requires CanonicalGlobal(n.namespace)
    ensures CanonicalGlobal(Resolve(n, name))
  {
    hide Canonicalize, Tidy;
    if name != "" {
      var canon := Canonicalize(name);
      if name[0] == '/' {
        GlobalBecomesCanonical(name);
      } else {
        RelativeStaysRelative(name);
        GlobalBecomesCanonical(n.namespace + "/" + n.nodeName + "/" + canon[1..]);
        GlobalBecomesCanonical(n.namespace + "/" + canon);
      }
    }
  }

  /** So resolving twice is resolving once. */
  lemma ResolveIdempotent(n: Resolver, name: string)
    requires CanonicalGlobal(n.namespace)
    ensures Resolve(n, Resolve(n, name)) == Resolve(n, name)
  {
    hide Canonicalize, Tidy;
    ResolveIsCanonical(n, name);
    CanonicalResolves(n, Resolve(n, name));
  }

  lemma CanonicalResolves(n: Resolver, name: string)
    requires n.namespace != "" && CanonicalGlobal(name)
    ensures Resolve(n, name) == name
  {
    hide Canonicalize, Tidy;
    CanonicalIsFixed(name);
  }

  // ---------------------------------------------------------------- what names resolve to

  lemma SplitNext(w: string, t: string)
    requires '/' !in w
    ensures Split(w + "/" + t) == [w] + Split(t)
  {
    var s := w + ['/'] + t;
    BeforeMark(w, '/', t);
    assert s[|w| + 1..] == t && s[..|w|] == w;
  }

  lemma SplitWhole(w: string)
    requires '/' !in w
    ensures Split(w) == [w]
  {
    BeforeNone(w, '/');
  }

  lemma {:induction false} SplitConcat(a: string, b: string)
    ensures Split(a + "/" + b) == Split(a) + Split(b)
    decreases |a|
  {
    hide Split, Index;
    var i := Index(a, '/');
    if i < 0 {
      SplitWhole(a);
      SplitNext(a, b);
    } else {
      var w, t := a[..i], a[i + 1..];
      SplitConcat(t, b);
      assert a == w + "/" + t && a + "/" + b == w + "/" + (t + "/" + b);
      SplitNext(w, t);
      SplitNext(w, t + "/" + b);
      assert [w] + (Split(t) + Split(b)) == [w] + Split(t) + Split(b);
    }
  }

  lemma NonEmptyNext(w: string, parts: seq<string>)
    ensures NonEmpty([w] + parts) == (if w == "" then [] else [w]) + NonEmpty(parts)
  {
    assert ([w] + parts)[1..] == parts;
  }

  lemma {:induction false} NonEmptyConcat(a: seq<string>, b: seq<string>)
    ensures NonEmpty(a + b) == NonEmpty(a) + NonEmpty(b)
  {
    if a == [] {
      assert a + b == b;
    } else {
      hide NonEmpty;
      var w, t := a[0], a[1..];
      NonEmptyConcat(t, b);
      assert a == [w] + t && a + b == [w] + (t + b);
      NonEmptyNext(w, t);
      NonEmptyNext(w, t + b);
    }
  }

  lemma WordsConcat(a: string, b: string)
    ensures Words(a + "/" + b) == Words(a) + Words(b)
  {
    hide Split, NonEmpty;
    SplitConcat(a, b);
    NonEmptyConcat(Split(a), Split(b));
  }

  /** A relative name is looked up in the node's namespace. */
  lemma RelativeResolves(n: Resolver, name: string)
    requires CanonicalGlobal(n.namespace) && name != "" && name[0] != '/' && name[0] != '~'
    ensures CanonicalGlobal(Resolve(n, name)) && Words(Resolve(n, name)) == Words(n.namespace) + Words(name)
  {
    hide Words, Canonicalize, Tidy;
    var canon := Canonicalize(name);
    ResolveIsCanonical(n, name);
    RelativeStaysRelative(name);
    WordsOfCanonical(name);
    WordsConcat(n.namespace, canon);
    WordsOfCanonical(n.namespace + "/" + canon);
  }

  /** A private name is looked up under the node itself. */
  lemma PrivateResolves(n: Resolver, name: string)
    requires CanonicalGlobal(n.namespace)
    ensures CanonicalGlobal(Resolve(n, "~" + name))
    ensures Words(Resolve(n, "~" + name)) == Words(n.namespace) + Words(n.nodeName) + Words(name)
  {
    hide Words, Canonicalize, Tidy;
    var canon := Canonicalize("~" + name);
    ResolveIsCanonical(n, "~" + name);
    RelativeStaysRelative("~" + name);
    TildeWords(name);
    WordsConcat(n.namespace, n.nodeName);
    WordsConcat(n.namespace + "/" + n.nodeName, canon[1..]);
    WordsOfCanonical(n.namespace + "/" + n.nodeName + "/" + canon[1..]);
  }

  lemma TildeWords(name: string)
    ensures var canon := Canonicalize("~" + name); canon != "" && canon[0] == '~' && Words(canon[1..]) == Words(name)
  {
    hide Join, Split, NonEmpty, Words;
    var s := "~" + name;
    var first, tail := FirstComponent(name);
    WordsAreWords(s);
    TildeJoin(first, tail);
    assert Canonicalize(s) == Join(["~" + first] + tail);
    assert forall w <- tail :: w in Words(s);
    if first != "" {
      WordsOfJoin([first] + tail);
    } else {
      WordsOfJoin(tail);
      assert tail == [] ==> [first] + tail == [""];
      LeadingSlash(Join(tail));
      NoWords();
      JoinOne("");
    }
  }

  /** The first component of a private name carries the tilde. */
  lemma FirstComponent(name: string) returns (first: string, tail: seq<string>)
    ensures '/' !in first
    ensures Words(name) == if first == "" then tail else [first] + tail
    ensures Words("~" + name) == ["~" + first] + tail
  {
    hide Words;
    var i := Index(name, '/');
    first, tail := name, [];
    if i >= 0 {
      var t := name[i + 1..];
      first, tail := name[..i], Words(t);
      assert name == first + "/" + t && "~" + name == ("~" + first) + "/" + t;
      WordsConcat(first, t);
      WordsConcat("~" + first, t);
    }
    WordsOfOne("~" + first);
    if first == "" {
      NoWords();
    } else {
      WordsOfOne(first);
    }
  }

  lemma TildeJoin(first: string, tail: seq<string>)
    ensures var j := Join(["~" + first] + tail);
            j != "" && j[0] == '~'
            && j[1..] == if first == "" && tail != [] then "/" + Join(tail) else Join([first] + tail)
  {
    if tail == [] {
      assert ["~" + first] + tail == ["~" + first] && [first] + tail == [first];
    } else {
      JoinNext("~" + first, tail);
      JoinNext(first, tail);
    }
  }

  /** A global name stands for itself, the empty name for the namespace. */
  lemma GlobalResolves(n: Resolver, name: string)
    requires CanonicalGlobal(n.namespace)
    ensures name != "" && name[0] == '/' ==>
              CanonicalGlobal(Resolve(n, name)) && Words(Resolve(n, name)) == Words(name)
    ensures name == "" ==> Resolve(n, name) == n.namespace
  {
    hide Words, Canonicalize, Tidy;
    if name != "" && name[0] == '/' {
      GlobalBecomesCanonical(name);
      WordsOfCanonical(name);
    }
  }

  /** A canonical global name is its words behind slashes, so the words of the three lemmas above fix the names. */
  lemma WordsFixName(a: string, b: string)
    requires CanonicalGlobal(a) && CanonicalGlobal(b) && Words(a) == Words(b)
    ensures a == b
  {
    hide Words, Tidy;
    CanonicalIsFixed(a);
    CanonicalIsFixed(b);
    CanonicalByWords(a);
    CanonicalByWords(b);
  }

  lemma CanonicalByWords(a: string)
    requires CanonicalGlobal(a)
    ensures Canonicalize(a) == if a == "/" then "/" else "/" + Join(Words(a))
    ensures Words(a) == [] <==> a == "/"
  {
    hide Join, Tidy, Words;
    assert a == "/" + a[1..];
    LeadingSlash(a[1..]);
    if a == "/" {
      NoWords();
    } else {
      TidyIsFixed(a[1..]);
    }
  }

  predicate OneWord(w: string)
  {
    w != "" && '/' !in w && w[0] != '~'
  }

  lemma GlobalPath(words: seq<string>)
    requires words != [] && AreWords(words)
    ensures CanonicalGlobal("/" + Join(words)) && Words("/" + Join(words)) == words
  {
    hide Words, Tidy, Join;
    JoinIsTidy(words);
    assert ("/" + Join(words))[1..] == Join(words);
    LeadingSlash(Join(words));
    WordsOfJoin(words);
  }

  /** Spelled out for one-word names, the case of most nodes and topics. */
  lemma OneWordResolves(namespace: string, node: string, w: string)
    requires OneWord(namespace) && OneWord(node) && OneWord(w)
    ensures var n := Resolver(node, "/" + namespace, map[]);
            && Resolve(n, w) == "/" + namespace + "/" + w
            && Resolve(n, "~" + w) == "/" + namespace + "/" + node + "/" + w
            && Resolve(n, "/" + w) == "/" + w
            && Resolve(n, "") == "/" + namespace
  {
    hide Words, Resolve, CanonicalGlobal, OneWord;
    var n := Resolver(node, "/" + namespace, map[]);
    OneWordPath(namespace);
    OneWordPath(node);
    OneWordPath(w);
    JoinsOf(namespace, node, w);
    GlobalPath([namespace, w]);
    GlobalPath([namespace, node, w]);
    RelativeResolves(n, w);
    PrivateResolves(n, w);
    GlobalResolves(n, "/" + w);
    GlobalResolves(n, "");
    WordsFixName(Resolve(n, w), "/" + namespace + "/" + w);
    WordsFixName(Resolve(n, "~" + w), "/" + namespace + "/" + node + "/" + w);
    WordsFixName(Resolve(n, "/" + w), "/" + w);
  }

  lemma FirstIsNoSlash(w: string)
    requires OneWord(w)
    ensures w != "" && w[0] != '/' && w[0] != '~'
  {
    assert w[0] in w;
  }

  lemma OneWordPath(w: string)
    requires OneWord(w)
    ensures w != "" && w[0] != '/' && w[0] != '~' && '/' !in w
    ensures Words(w) == [w] && CanonicalGlobal("/" + w) && Words("/" + w) == [w]
  {
    hide Words, CanonicalGlobal;
    FirstIsNoSlash(w);
    WordsOfOne(w);
    GlobalPath([w]);
    JoinOne(w);
  }

  lemma JoinsOf(a: string, b: string, c: string)
    ensures "/" + Join([a, c]) == "/" + a + "/" + c
    ensures "/" + Join([a, b, c]) == "/" + a + "/" + b + "/" + c
  {
    hide Join;
    JoinOne(c);
    JoinNext(b, [c]);
    JoinNext(a, [c]);
    JoinNext(a, [b, c]);
    assert [a] + [c] == [a, c] && [b] + [c] == [b, c] && [a] + [b, c] == [a, b, c];
  }

  // ---------------------------------------------------------------- building the remapping

  /** newNameResolver's loop over a map iterated in the given order. */
  function Build(n: Resolver, raw: map<string, string>, order: seq<string>): map<string, string>
    requires n.namespace != "" && forall k <- order :: k in raw
  {
    if order == [] then map[]
    else
      var k := order[|order| - 1];
      Build(n, raw, order[..|order| - 1])[Resolve(n, k) := Resolve(n, raw[k])]
  }

  /** Some order in which Go may iterate a map with these keys. */
  ghost predicate IsOrder(order: seq<string>, keys: set<string>)
  {
    && (forall k :: k in order <==> k in keys)
    && forall i, j | 0 <= i < j < |order| :: order[i] != order[j]
  }

  /** Sources that resolve to one name have targets that resolve to one name. */
  predicate Consistent(n: Resolver, raw: map<string, string>)
    requires n.namespace != ""
  {
    forall k <- raw, l <- raw :: Resolve(n, k) == Resolve(n, l) ==> Resolve(n, raw[k]) == Resolve(n, raw[l])
  }

  /** With consistent sources, a listed source decides its entry. */
  lemma {:induction false} EntryFor(n: Resolver, raw: map<string, string>, order: seq<string>, k: string)
    requires n.namespace != "" && Consistent(n, raw) && k in order && forall l <- order :: l in raw
    ensures var b := Build(n, raw, order);
            Resolve(n, k) in b && b[Resolve(n, k)] == Resolve(n, raw[k])
  {
    hide Resolve;
    var init, last := order[..|order| - 1], order[|order| - 1];
    assert order == init + [last];
    if k in init {
      EntryFor(n, raw, init, k);
    }
  }

  /** Every entry comes from a listed source. */
  lemma {:induction false} SourceOf(n: Resolver, raw: map<string, string>, order: seq<string>, r: string)
    returns (k: string)
    requires n.namespace != "" && (forall l <- order :: l in raw) && r in Build(n, raw, order)
    ensures k in order && Resolve(n, k) == r
  {
    hide Resolve;
    var init, last := order[..|order| - 1], order[|order| - 1];
    assert order == init + [last];
    if r == Resolve(n, last) {
      k := last;
    } else {
      k := SourceOf(n, raw, init, r);
    }
  }

  lemma {:induction false} SomeOrder(keys: set<string>) returns (order: seq<string>)
    ensures IsOrder(order, keys)
    decreases keys
  {
    if keys == {} {
      order := [];
    } else {
      var k :| k in keys;
      var rest := SomeOrder(keys - {k});
      order := rest + [k];
    }
  }

  ghost predicate OrderIrrelevant(n: Resolver, raw: map<string, string>)
    requires n.namespace != ""
  {
    forall a, b | IsOrder(a, raw.Keys) && IsOrder(b, raw.Keys) :: Build(n, raw, a) == Build(n, raw, b)
  }

  lemma ConsistentIsOrderIrrelevant(n: Resolver, raw: map<string, string>, a: seq<string>, b: seq<string>)
    requires n.namespace != "" && Consistent(n, raw) && IsOrder(a, raw.Keys) && IsOrder(b, raw.Keys)
    ensures Build(n, raw, a) == Build(n, raw, b)
  {
    hide Resolve, Build;
    forall r
      ensures r in Build(n, raw, a) <==> r in Build(n, raw, b)
      ensures r in Build(n, raw, a) ==> Build(n, raw, a)[r] == Build(n, raw, b)[r]
    {
      if r in Build(n, raw, a) {
        var k := SourceOf(n, raw, a, r);
        EntryFor(n, raw, a, k);
        EntryFor(n, raw, b, k);
      }
      if r in Build(n, raw, b) {
        var k := SourceOf(n, raw, b, r);
        EntryFor(n, raw, a, k);
      }
    }
  }

  lemma LastWins(n: Resolver, raw: map<string, string>, order: seq<string>, k: string)
    requires n.namespace != "" && k in raw && forall l <- order :: l in raw
    ensures var b := Build(n, raw, order + [k]);
            Resolve(n, k) in b && b[Resolve(n, k)] == Resolve(n, raw[k])
  {
  }

  lemma OrderIrrelevantIsConsistent(n: Resolver, raw: map<string, string>, k: string, l: string)
    requires n.namespace != "" && OrderIrrelevant(n, raw) && k in raw && l in raw && Resolve(n, k) == Resolve(n, l)
    ensures Resolve(n, raw[k]) == Resolve(n, raw[l])
  {
    hide Resolve, Build;
    var a := SomeOrder(raw.Keys - {k});
    var b := SomeOrder(raw.Keys - {l});
    assert IsOrder(a + [k], raw.Keys) && IsOrder(b + [l], raw.Keys);
    LastWins(n, raw, a, k);
    LastWins(n, raw, b, l);
  }

  /** The remapping is independent of map iteration order exactly when the sources are consistent. */
  lemma OrderIrrelevantIff(n: Resolver, raw: map<string, string>)
    requires n.namespace != ""
    ensures OrderIrrelevant(n, raw) <==> Consistent(n, raw)
  {
    hide Resolve, Build;
    if Consistent(n, raw) {
      forall a, b | IsOrder(a, raw.Keys) && IsOrder(b, raw.Keys)
        ensures Build(n, raw, a) == Build(n, raw, b)
      {
        ConsistentIsOrderIrrelevant(n, raw, a, b);
      }
    }
    if OrderIrrelevant(n, raw) {
      forall k <- raw, l <- raw | Resolve(n, k) == Resolve(n, l)
        ensures Resolve(n, raw[k]) == Resolve(n, raw[l])
      {
        OrderIrrelevantIsConsistent(n, raw, k, l);
      }
    }
  }

  lemma MappingIrrelevant(n: Resolver, m: map<string, string>, name: string)
    requires n.namespace != ""
    ensures Resolve(n.(mapping := m), name) == Resolve(n, name)
  {
  }

  /** With consistent sources, a name that resolves like a source is remapped to what that source's target resolves
      to, and every other name to what it resolves to itself. */
  lemma RemapFollows(n: Resolver, raw: map<string, string>, order: seq<string>, name: string)
    requires n.namespace != "" && Consistent(n, raw) && IsOrder(order, raw.Keys) && n.mapping == Build(n, raw, order)
    ensures forall k <- raw | Resolve(n, k) == Resolve(n, name) :: Remap(n, name) == Resolve(n, raw[k])
    ensures (forall k <- raw :: Resolve(n, k) != Resolve(n, name)) ==> Remap(n, name) == Resolve(n, name)
  {
    hide Resolve, Build;
    forall k <- raw | Resolve(n, k) == Resolve(n, name)
      ensures Remap(n, name) == Resolve(n, raw[k])
    {
      EntryFor(n, raw, order, k);
    }
    if Resolve(n, name) in n.mapping {
      var k := SourceOf(n, raw, order, Resolve(n, name));
      assert k in raw;
    }
  }

  /** newNameResolver: canonicalise the namespace, then resolve both sides of every remapping. It
      panics on an empty namespace, and its names are global exactly when the namespace is. */
  method NewNameResolver(namespace: string, nodeName: string, raw: map<string, string>)
    returns (n: Option<Resolver>, ghost order: seq<string>)
    ensures n.None? <==> namespace == ""
    ensures n.Some? ==>
            && n.value.nodeName == nodeName && n.value.namespace == Canonicalize(namespace) != ""
            && IsOrder(order, raw.Keys) && n.value.mapping == Build(n.value.(mapping := map[]), raw, order)
    ensures n.Some? ==> (CanonicalGlobal(n.value.namespace) <==> namespace[0] == '/')
    ensures n.Some? && namespace[0] == '/' ==> Built(n.value)
  {
    hide Resolve, Canonicalize;
    order := [];
    if namespace == "" {
      return None, order;
    }
    var ns := CanonicalizeName(namespace);
    NamespaceKind(namespace);
    var base := Resolver(nodeName, ns, map[]);
    var resolved: map<string, string> := map[];
    var keys := raw.Keys;
    while keys != {}
      invariant keys <= raw.Keys && IsOrder(order, raw.Keys - keys)
      invariant resolved == Build(base, raw, order)
      invariant CanonicalGlobal(ns) ==> forall r <- resolved :: CanonicalGlobal(r) && CanonicalGlobal(resolved[r])
      decreases keys
    {
      hide CanonicalGlobal;
      var k :| k in keys;
      if CanonicalGlobal(ns) {
        ResolveIsCanonical(base, k);
        ResolveIsCanonical(base, raw[k]);
      }
      resolved := resolved[Resolve(base, k) := Resolve(base, raw[k])];
      assert (order + [k])[..|order|] == order;
      order, keys := order + [k], keys - {k};
    }
    n := Some(base.(mapping := resolved));
  }

  lemma NamespaceKind(namespace: string)
    requires namespace != ""
    ensures Canonicalize(namespace) != ""
    ensures CanonicalGlobal(Canonicalize(namespace)) <==> namespace[0] == '/'
  {
    hide Canonicalize, Tidy;
    if namespace[0] == '/' {
      GlobalBecomesCanonical(namespace);
    } else {
      RelativeStaysRelative(namespace);
    }
  }

  /** Both sides of every resolved remapping are canonical global names. */
  predicate Built(n: Resolver)
  {
    forall r <- n.mapping :: CanonicalGlobal(r) && CanonicalGlobal(n.mapping[r])
  }

  /** No resolved target is itself remapped elsewhere. */
  predicate Settled(n: Resolver)
  {
    forall r <- n.mapping :: n.mapping[r] in n.mapping ==> n.mapping[n.mapping[r]] == n.mapping[r]
  }

  ghost predicate RemapIdempotent(n: Resolver)
    requires n.namespace != ""
  {
    forall name :: Remap(n, Remap(n, name)) == Remap(n, name)
  }

  /** Remapping twice, as NewPublisher does, gives the same key as remapping once, as RemovePublisher and
      NewSubscriber do, exactly when no target is remapped elsewhere. */
  lemma RemapIdempotentIff(n: Resolver)
    requires CanonicalGlobal(n.namespace) && Built(n)
    ensures RemapIdempotent(n) <==> Settled(n)
  {
    hide Resolve, CanonicalGlobal;
    assert n.namespace != "" by { NotEmpty(n.namespace); }
    if Settled(n) {
      forall name
        ensures Remap(n, Remap(n, name)) == Remap(n, name)
      {
        var key := Resolve(n, name);
        ResolveIsCanonical(n, name);
        CanonicalResolves(n, Remap(n, name));
      }
    }
    if RemapIdempotent(n) {
      forall r <- n.mapping | n.mapping[r] in n.mapping
        ensures n.mapping[n.mapping[r]] == n.mapping[r]
      {
        CanonicalResolves(n, r);
        CanonicalResolves(n, n.mapping[r]);
        assert Remap(n, Remap(n, r)) == Remap(n, r);
      }
    }
  }

  lemma NotEmpty(s: string)
    requires CanonicalGlobal(s)
    ensures s != ""
  {
  }
}
