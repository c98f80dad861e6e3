/** The file-list search of src/features/search.js: an order-preserving
    filter over the tree listing, helped by an optional reverse index that
    the repository may carry at `.search/index.json`. */
module Search {
  import opened Wrappers
  import opened Text
  import opened GitHub

  /** The parsed reverse index `{tokens, tags, fileTags}`; each table maps a
      key to a list, and a missing table is `None`. */
  datatype SearchIndex = SearchIndex(
    tokens: Option<map<string, seq<string>>>,
    tags: Option<map<string, seq<string>>>,
    fileTags: Option<map<string, seq<string>>>)

  const IndexPath := ".search/index.json"

  /** `q.split(/\s+/).filter(Boolean)`: the maximal runs of non-`\s` characters. */
  function Words(q: string): (ws: seq<string>)
    ensures forall k | 0 <= k < |ws| :: IsWord(ws[k])
    decreases |q|
  {
    var t := TrimStart(q);
    if t == [] then []
    else
      var w := FirstWord(t);
      var rest := Words(t[|w|..]);
      assert IsWord(w);
      WordsCons(w, rest);
      [w] + rest
  }

  lemma WordsCons(w: string, rest: seq<string>)
    requires IsWord(w) && forall k | 0 <= k < |rest| :: IsWord(rest[k])
    ensures forall k | 0 <= k < |[w] + rest| :: IsWord(([w] + rest)[k])
  {
    forall k | 0 <= k < |[w] + rest|
      ensures IsWord(([w] + rest)[k])
    {
      if k > 0 {
        assert ([w] + rest)[k] == rest[k - 1];
      }
    }
  }

  /** The maximal runs of non-`\s` characters of `q`, in order, read one
      character at a time: a `\s` is skipped; a non-`\s` character joins
      the run that the next character continues, or is a run of its own. */
  function Runs(q: string): (rs: seq<string>)
    ensures q != [] && !IsSpace(q[0]) ==> rs != [] && rs[0] != [] && rs[0][0] == q[0]
    decreases |q|
  {
    if q == [] then []
    else if IsSpace(q[0]) then Runs(q[1..])
    else
      var rest := Runs(q[1..]);
      if |q| > 1 && !IsSpace(q[1]) then [[q[0]] + rest[0]] + rest[1..] else [[q[0]]] + rest
  }

  /** The query's words are exactly its maximal runs of non-`\s` characters. */
  lemma {:induction false} WordsAreRuns(q: string)
    ensures Words(q) == Runs(q)
    decreases |q|
  {
    if q == [] {
    } else if IsSpace(q[0]) {
      WordsAreRuns(q[1..]);
      WordsSkipSpace(q);
    } else if |q| > 1 && !IsSpace(q[1]) {
      WordsAreRuns(q[1..]);
      WordsExtend(q);
    } else {
      WordsAreRuns(q[1..]);
      WordsSingle(q);
    }
  }

  lemma WordsSkipSpace(q: string)
    requires q != [] && IsSpace(q[0])
    ensures Words(q) == Words(q[1..])
  {
    assert TrimStart(q) == TrimStart(q[1..]);
  }

  /** A non-`\s` character followed by another extends the first word. */
  lemma WordsExtend(q: string)
    requires |q| > 1 && !IsSpace(q[0]) && !IsSpace(q[1])
    ensures Words(q[1..]) != [] && Words(q) == [[q[0]] + Words(q[1..])[0]] + Words(q[1..])[1..]
  {
    var w := FirstWord(q);
    var v := FirstWord(q[1..]);
    assert TrimStart(q) == q;
    assert TrimStart(q[1..]) == q[1..];
    assert w == [q[0]] + v;
    assert q[1..][|v|..] == q[|w|..];
    assert Words(q[1..]) == [v] + Words(q[|w|..]);
  }

  /** A non-`\s` character at the end or before a `\s` is a word of its own. */
  lemma WordsSingle(q: string)
    requires q != [] && !IsSpace(q[0]) && (|q| == 1 || IsSpace(q[1]))
    ensures Words(q) == [[q[0]]] + Words(q[1..])
  {
    assert TrimStart(q) == q;
    assert FirstWord(q) == [q[0]];
  }

  predicate IsWord(w: string) {
    w != [] && forall j | 0 <= j < |w| :: !IsSpace(w[j])
  }

  /** The longest prefix of `s` without `\s`. */
  function FirstWord(s: string): (w: string)
    ensures |w| <= |s| && w == s[..|w|]
    ensures forall j | 0 <= j < |w| :: !IsSpace(w[j])
    ensures |w| == |s| || IsSpace(s[|w|])
    ensures s != [] && !IsSpace(s[0]) ==> w != []
  {
    if s == [] || IsSpace(s[0]) then []
    else
      var v := FirstWord(s[1..]);
      var w := [s[0]] + v;
      assert s[..|w|] == [s[0]] + s[1..][..|v|];
      forall j | 0 < j < |w|
        ensures !IsSpace(w[j])
      {
        assert w[j] == v[j - 1];
      }
      assert |w| == |s| || s[|w|] == s[1..][|v|];
      w
  }

  /** The paths listed under any word of the query in the index's token table. */
  function Hits(idx: SearchIndex, words: seq<string>): (hits: set<string>)
    ensures forall p :: p in hits <==>
      idx.tokens.Some? && exists t | t in words && t in idx.tokens.value :: p in idx.tokens.value[t]
  {
    if idx.tokens.None? then {}
    else
      var table := idx.tokens.value;
      set t, p | t in words && t in table && p in table[t] :: p
  }

  /** `Array.prototype.filter`. */
  function Keep<T>(xs: seq<T>, p: T -> bool): (r: seq<T>)
    ensures |r| <= |xs|
    ensures forall x | x in r :: x in xs && p(x)
    ensures forall x | x in xs && p(x) :: x in r
    ensures forall x | x in xs :: multiset(r)[x] == if p(x) then multiset(xs)[x] else 0
  {
    if xs == [] then []
    else
      var rest := Keep(xs[1..], p);
      assert xs == [xs[0]] + xs[1..];
      assert multiset(rest)[xs[0]] == if p(xs[0]) then multiset(xs[1..])[xs[0]] else 0 by {
        if xs[0] !in xs[1..] {
          assert xs[0] !in rest;
        }
      }
      if p(xs[0]) then [xs[0]] + rest else rest
  }

  /** `xs` is `ys` with some elements left out, order kept. */
  predicate IsSubsequence<T(==)>(xs: seq<T>, ys: seq<T>)
    decreases |ys|
  {
    if xs == [] then true
    else if ys == [] then false
    else if xs[0] == ys[0] then IsSubsequence(xs[1..], ys[1..])
    else IsSubsequence(xs, ys[1..])
  }

  lemma {:induction false} KeepIsSubsequence<T>(xs: seq<T>, p: T -> bool)
    ensures IsSubsequence(Keep(xs, p), xs)
  {
    if xs != [] {
      KeepIsSubsequence(xs[1..], p);
      if !p(xs[0]) {
        SubsequenceOfTail(Keep(xs[1..], p), xs);
      }
    }
  }

  lemma {:induction false} SubsequenceOfTail<T>(xs: seq<T>, ys: seq<T>)
    requires ys != [] && IsSubsequence(xs, ys[1..])
    ensures IsSubsequence(xs, ys)
    decreases |ys|, 0
  {
    if xs != [] && xs[0] == ys[0] {
      SubsequenceShrink(xs, ys[1..]);
    }
  }

  lemma {:induction false} SubsequenceShrink<T>(xs: seq<T>, zs: seq<T>)
    requires xs != [] && IsSubsequence(xs, zs)
    ensures IsSubsequence(xs[1..], zs)
    decreases |zs|, 1
  {
    if xs[0] == zs[0] {
      SubsequenceOfTail(xs[1..], zs);
    } else {
      SubsequenceShrink(xs, zs[1..]);
      SubsequenceOfTail(xs[1..], zs);
    }
  }

  /** A weaker filter keeps a subsequence of what a stronger one keeps. */
  lemma {:induction false} KeepMonotone<T>(xs: seq<T>, p: T -> bool, q: T -> bool)
    requires forall x | x in xs :: p(x) ==> q(x)
    ensures IsSubsequence(Keep(xs, p), Keep(xs, q))
  {
    if xs != [] {
      KeepMonotone(xs[1..], p, q);
      if !p(xs[0]) && q(xs[0]) {
        SubsequenceOfTail(Keep(xs[1..], p), Keep(xs, q));
      }
    }
  }

  /** The test `filterFiles` applies to one file. */
  predicate Matches(index: Option<SearchIndex>, q: string, lower: string -> string, f: FileEntry) {
    match index
    case None => Contains(lower(f.path), q)
    case Some(idx) => f.path in Hits(idx, Words(q)) || Contains(lower(f.path), q)
  }

  /** `filterFiles`: the files whose lower-cased path contains `q`, plus,
      with an index, those listed under a word of `q`; order is kept.
      `lower` stands for `toLowerCase`. */
  function FilterFiles(index: Option<SearchIndex>, files: seq<FileEntry>, q: string,
                       lower: string -> string): (r: seq<FileEntry>)
    ensures IsSubsequence(r, files)
    ensures forall f :: f in r <==> f in files && Matches(index, q, lower, f)
  {
    KeepIsSubsequence(files, f => Matches(index, q, lower, f));
    Keep(files, f => Matches(index, q, lower, f))
  }

  /** Loading an index never hides a file the plain search would show. */
  lemma IndexOnlyAdds(idx: SearchIndex, files: seq<FileEntry>, q: string, lower: string -> string)
    ensures IsSubsequence(FilterFiles(None, files, q, lower), FilterFiles(Some(idx), files, q, lower))
  {
    KeepMonotone(files, f => Matches(None, q, lower, f), f => Matches(Some(idx), q, lower, f));
  }

  /** The names every parsed object inherits from `Object.prototype`. */
  predicate InheritedKey(t: string) {
    || t == "constructor" || t == "__proto__" || t == "toString" || t == "toLocaleString"
    || t == "valueOf" || t == "hasOwnProperty" || t == "isPrototypeOf" || t == "propertyIsEnumerable"
    || t == "__defineGetter__" || t == "__defineSetter__" || t == "__lookupGetter__" || t == "__lookupSetter__"
  }

  /** The `TypeError` of `for (const p of hit)` when `hit` is not iterable. */
  datatype SearchError = NotIterable

  /** The hit loop as written: `idx.tokens?.[t] || []` also finds an
      inherited key missing from the table, and its value (the `Object`
      function or `Object.prototype`) is truthy but not iterable. */
  function HitsAsWritten(idx: SearchIndex, words: seq<string>): (r: Result<set<string>, SearchError>)
    ensures r.Err? <==> idx.tokens.Some? && exists t | t in words :: InheritedKey(t) && t !in idx.tokens.value
    ensures r.Ok? ==> r.value == Hits(idx, words)
  {
    if idx.tokens.None? || words == [] then Ok({})
    else
      var table := idx.tokens.value;
      var t := words[0];
      if t !in table && InheritedKey(t) then Err(NotIterable)
      else
        match HitsAsWritten(idx, words[1..])
        case Err(e) => Err(e)
        case Ok(rest) =>
          HitsCons(idx, words);
          Ok((set p | p in Listed(table, t)) + rest)
  }

  /** `table[t] || []` for an own key `t`. */
  function Listed(table: map<string, seq<string>>, t: string): (ps: seq<string>)
    ensures t !in table ==> ps == []
  {
    if t in table then table[t] else []
  }

  lemma HitsCons(idx: SearchIndex, words: seq<string>)
    requires idx.tokens.Some? && words != []
    ensures Hits(idx, words) == (set p | p in Listed(idx.tokens.value, words[0])) + Hits(idx, words[1..])
  {
    var table := idx.tokens.value;
    var hit := Listed(table, words[0]);
    forall p | p in Hits(idx, words)
      ensures p in hit || p in Hits(idx, words[1..])
    {
      var t :| t in words && t in table && p in table[t];
      if t != words[0] {
        assert t in words[1..];
      }
    }
    forall p | p in Hits(idx, words[1..])
      ensures p in Hits(idx, words)
    {
      var t :| t in words[1..] && t in table && p in table[t];
      assert t in words;
    }
  }

  /** Filters that agree on every element keep the same elements. */
  lemma {:induction false} KeepAgrees<T>(xs: seq<T>, p: T -> bool, q: T -> bool)
    requires forall x | x in xs :: p(x) == q(x)
    ensures Keep(xs, p) == Keep(xs, q)
  {
    if xs != [] {
      KeepAgrees(xs[1..], p, q);
    }
  }

  /** `filterFiles` as written: with an index whose `tokens` table lacks a
      word of the query that is an inherited key, it throws; otherwise it
      returns what the own-key filter `FilterFiles` returns. */
  function FilterFilesAsWritten(index: Option<SearchIndex>, files: seq<FileEntry>, q: string,
                                lower: string -> string): (r: Result<seq<FileEntry>, SearchError>)
    ensures r.Err? <==> index.Some? && index.value.tokens.Some?
                        && exists t | t in Words(q) :: InheritedKey(t) && t !in index.value.tokens.value
    ensures r.Ok? ==> r.value == FilterFiles(index, files, q, lower)
  {
    var plain := (f: FileEntry) => Contains(lower(f.path), q);
    var matches := (f: FileEntry) => Matches(index, q, lower, f);
    match index
    case None =>
      KeepAgrees(files, plain, matches);
      Ok(Keep(files, plain))
    case Some(idx) =>
      match HitsAsWritten(idx, Words(q))
      case Err(e) => Err(e)
      case Ok(paths) =>
        var listed := (f: FileEntry) => f.path in paths || Contains(lower(f.path), q);
        KeepAgrees(files, listed, matches);
        Ok(Keep(files, listed))
  }

  /** A text without `\s` is its own single word. */
  lemma WordsOfWord(w: string)
    requires IsWord(w)
    ensures Words(w) == [w]
  {
    TrimStartDropsSpace(w);
    assert TrimStart(w) == w;
    assert FirstWord(w) == w;
    assert w[|w|..] == [];
  }

  /** As written, a query that is one inherited name (`constructor`, or
      `toString` when the caller does not lower-case) with an index loaded
      whose token table has no such key throws instead of filtering. */
  lemma InheritedQueryThrows(idx: SearchIndex, files: seq<FileEntry>, w: string, lower: string -> string)
    requires InheritedKey(w) && idx.tokens.Some? && w !in idx.tokens.value
    ensures FilterFilesAsWritten(Some(idx), files, w, lower).Err?
  {
    InheritedKeyIsWord(w);
    WordsOfWord(w);
    InheritedWordThrows(idx, files, w, lower, w);
  }

  /** Any word of the query that is an inherited key missing from the
      table makes the filter throw. */
  lemma InheritedWordThrows(idx: SearchIndex, files: seq<FileEntry>, q: string, lower: string -> string, t: string)
    requires idx.tokens.Some? && t in Words(q) && InheritedKey(t) && t !in idx.tokens.value
    ensures FilterFilesAsWritten(Some(idx), files, q, lower).Err?
  {
  }

  lemma InheritedKeyIsWord(w: string)
    requires InheritedKey(w)
    ensures IsWord(w)
  {
    if w == "constructor" || w == "__proto__" || w == "toString" {
      NamesAreWords1(w);
    } else if w == "toLocaleString" || w == "valueOf" || w == "hasOwnProperty" {
      NamesAreWords2(w);
    } else if w == "isPrototypeOf" || w == "propertyIsEnumerable" || w == "__defineGetter__" {
      NamesAreWords3(w);
    } else {
      NamesAreWords4(w);
    }
  }

  lemma NamesAreWords1(w: string)
    requires w == "constructor" || w == "__proto__" || w == "toString"
    ensures IsWord(w)
  {
    assert forall j | 0 <= j < |w| :: NameChar(w[j]);
    NameIsWord(w);
  }

  lemma NamesAreWords2(w: string)
    requires w == "toLocaleString" || w == "valueOf" || w == "hasOwnProperty"
    ensures IsWord(w)
  {
    assert forall j | 0 <= j < |w| :: NameChar(w[j]);
    NameIsWord(w);
  }

  lemma NamesAreWords3(w: string)
    requires w == "isPrototypeOf" || w == "propertyIsEnumerable" || w == "__defineGetter__"
    ensures IsWord(w)
  {
    assert forall j | 0 <= j < |w| :: NameChar(w[j]);
    NameIsWord(w);
  }

  lemma NamesAreWords4(w: string)
    requires w == "__defineSetter__" || w == "__lookupGetter__" || w == "__lookupSetter__"
    ensures IsWord(w)
  {
    assert forall j | 0 <= j < |w| :: NameChar(w[j]);
    NameIsWord(w);
  }

  /** The characters of a JavaScript property name without escapes. */
  predicate NameChar(c: char) {
    'a' <= c <= 'z' || 'A' <= c <= 'Z' || c == '_'
  }

  lemma NameIsWord(w: string)
    requires w != [] && forall j | 0 <= j < |w| :: NameChar(w[j])
    ensures IsWord(w)
  {
    forall j | 0 <= j < |w|
      ensures !IsSpace(w[j])
    {
      LetterNotSpace(w[j]);
    }
  }

  lemma LetterNotSpace(c: char)
    requires NameChar(c)
    ensures !IsSpace(c)
  {
  }

  predicate HasIndexFile(files: seq<FileEntry>) {
    exists k | 0 <= k < |files| :: files[k].path == IndexPath
  }

  /** What `maybeLoadReverseIndex` leaves in `searchIndex`, and the request
      it sends. `parse` stands for `JSON.parse` (`None` where it throws). */
  datatype IndexLoad = IndexLoad(sent: Option<Request>, index: Option<SearchIndex>)

  function MaybeLoadReverseIndex(files: seq<FileEntry>, cfg: Config,
                                 server: Request -> Reply<FilePayload>,
                                 parse: string -> Option<SearchIndex>): (r: IndexLoad)
    ensures !HasIndexFile(files) ==> r == IndexLoad(None, None)
    ensures HasIndexFile(files) ==> r.sent == GetFile(cfg, IndexPath, server).sent
    ensures r.index.Some? <==> HasIndexFile(files) && GetFile(cfg, IndexPath, server).result.Ok?
                               && parse(GetFile(cfg, IndexPath, server).result.value.content).Some?
    ensures r.index.Some? ==> r.index == parse(GetFile(cfg, IndexPath, server).result.value.content)
  {
    if !HasIndexFile(files) then IndexLoad(None, None)
    else
      var c := GetFile(cfg, IndexPath, server);
      match c.result
      case Err(_) => IndexLoad(c.sent, None)
      case Ok(data) => IndexLoad(c.sent, parse(data.content))
  }
}
