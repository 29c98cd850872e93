/**
 * The collector (bibtex2dict.py): walk a path, gather the entries of every
 * `.bib` file under it into one dictionary, and merge that dictionary over
 * the previously stored one.
 *
 * The file system is a tree whose directory children come in an explicit
 * order, standing for whatever order `os.listdir` returns. A file carries the
 * entry dictionary the BibTeX parser produces from its text; the parser is
 * not modelled.
 */
module Collector {
  import opened Results
  import opened OrderedDicts
  import opened Stores

  /** What a path names on disk. */
  datatype Tree =
    | File(path: string, parsed: Dict)
    | Dir(children: seq<Tree>)
      /** A path that is neither a regular file nor a directory (a dangling link, say). */
    | Other(path: string)

  datatype Error =
      /** `load_bibtex` returned `None` for this path, and `dict.update(None)` raised. */
    | NotFileOrDir(path: string)

  const BibSuffix: string := ".bib"

  /** `s.endswith(suffix)`. */
  predicate EndsWith(s: string, suffix: string) {
    |suffix| <= |s| && s[|s| - |suffix|..] == suffix
  }

  /** The parser's per-record customization hook applied to every record of `d`. */
  function Customized(d: Dict, customize: Record -> Record): (r: Dict)
    ensures r.keys == d.keys
    ensures forall k :: k in d.entries ==> k in r.entries && r.entries[k] == customize(d.entries[k])
  {
    OrderedMap(d.keys, map k | k in d.entries :: customize(d.entries[k]))
  }

  /**
   * `load_bibtex(path, customize)`: a file without the `.bib` suffix gives
   * `{}`, a `.bib` file gives its customized entries, a directory gives the
   * successive update of its children's dictionaries in listing order.
   */
  function Load(t: Tree, customize: Record -> Record): Result<Dict, Error>
    decreases t, 1, 0
  {
    match t
    case File(path, parsed) =>
      if EndsWith(path, BibSuffix) then Ok(Customized(parsed, customize)) else Ok(Empty)
    case Dir(children) => LoadChildren(t, |children|, customize)
    case Other(path) => Err(NotFileOrDir(path))
  }

  /** The dictionary of directory `t` after its loop has handled its first `n` children. */
  function LoadChildren(t: Tree, n: nat, customize: Record -> Record): Result<Dict, Error>
    requires t.Dir? && n <= |t.children|
    decreases t, 0, n
  {
    if n == 0 then Ok(Empty)
    else
      match LoadChildren(t, n - 1, customize)
      case Err(e) => Err(e)
      case Ok(acc) =>
        match Load(t.children[n - 1], customize)
        case Err(e) => Err(e)
        case Ok(sub) => Ok(Updated(acc, sub))
  }

  /** The keys of every `.bib` file reachable from `t`. */
  ghost function Produced(t: Tree): set<Key>
    decreases t, 1, 0
  {
    match t
    case File(path, parsed) => if EndsWith(path, BibSuffix) then parsed.entries.Keys else {}
    case Dir(children) => ProducedChildren(t, |children|)
    case Other(_) => {}
  }

  ghost function ProducedChildren(t: Tree, n: nat): set<Key>
    requires t.Dir? && n <= |t.children|
    decreases t, 0, n
  {
    if n == 0 then {} else ProducedChildren(t, n - 1) + Produced(t.children[n - 1])
  }

  /** Some path reachable from `t` is neither a file nor a directory. */
  ghost predicate HasOther(t: Tree)
    decreases t, 1, 0
  {
    match t
    case File(_, _) => false
    case Dir(children) => HasOtherChild(t, |children|)
    case Other(_) => true
  }

  ghost predicate HasOtherChild(t: Tree, n: nat)
    requires t.Dir? && n <= |t.children|
    decreases t, 0, n
  {
    n > 0 && (HasOtherChild(t, n - 1) || HasOther(t.children[n - 1]))
  }

  /**
   * A directory child that is a file without the `.bib` suffix leaves the
   * dictionary the loop has accumulated so far unchanged, order included.
   */
  lemma NonBibSkipped(t: Tree, n: nat, customize: Record -> Record)
    requires t.Dir? && 0 < n <= |t.children|
    requires t.children[n - 1].File? && !EndsWith(t.children[n - 1].path, BibSuffix)
    ensures LoadChildren(t, n, customize) == LoadChildren(t, n - 1, customize)
  {
  }

  /**
   * Loading fails exactly when some reachable path is neither a file nor a
   * directory; otherwise the keys loaded are exactly the keys of the `.bib`
   * files reachable from `t`.
   */
  lemma {:induction false} LoadKeys(t: Tree, customize: Record -> Record)
    ensures Load(t, customize).Err? <==> HasOther(t)
    ensures Load(t, customize).Ok? ==> Load(t, customize).value.entries.Keys == Produced(t)
    decreases t, 1, 0
  {
    match t
    case File(path, parsed) =>
    case Dir(children) => LoadChildrenKeys(t, |children|, customize);
    case Other(_) =>
  }

  lemma {:induction false} LoadChildrenKeys(t: Tree, n: nat, customize: Record -> Record)
    requires t.Dir? && n <= |t.children|
    ensures LoadChildren(t, n, customize).Err? <==> HasOtherChild(t, n)
    ensures LoadChildren(t, n, customize).Ok? ==>
              LoadChildren(t, n, customize).value.entries.Keys == ProducedChildren(t, n)
    decreases t, 0, n
  {
    if n > 0 {
      LoadChildrenKeys(t, n - 1, customize);
      LoadKeys(t.children[n - 1], customize);
      var prev := LoadChildren(t, n - 1, customize);
      var sub := Load(t.children[n - 1], customize);
      if prev.Ok? && sub.Ok? {
        UpdateKeys(prev.value, sub.value);
      }
    }
  }

  /** Once one child has failed, the directory loop does not recover. */
  lemma {:induction false} LoadChildrenErrSticks(t: Tree, i: nat, n: nat, customize: Record -> Record)
    requires t.Dir? && i <= n <= |t.children|
    requires LoadChildren(t, i, customize).Err?
    ensures LoadChildren(t, n, customize) == LoadChildren(t, i, customize)
    decreases n
  {
    if i < n {
      LoadChildrenErrSticks(t, i, n - 1, customize);
    }
  }

  /**
   * When several children of a directory produce the same key, the record
   * kept is the one from the last of them in listing order.
   */
  lemma LaterChildWins(t: Tree, j: nat, k: Key, customize: Record -> Record)
    requires t.Dir? && j < |t.children|
    requires Load(t, customize).Ok?
    requires Load(t.children[j], customize).Ok? && k in Load(t.children[j], customize).value.entries
    requires forall i :: j < i < |t.children| && Load(t.children[i], customize).Ok? ==>
               k !in Load(t.children[i], customize).value.entries
    ensures k in Load(t, customize).value.entries
    ensures Load(t, customize).value.entries[k] == Load(t.children[j], customize).value.entries[k]
  {
    LaterChildWinsUpTo(t, j, |t.children|, k, customize);
  }

  lemma {:induction false} LaterChildWinsUpTo(t: Tree, j: nat, n: nat, k: Key, customize: Record -> Record)
    requires t.Dir? && j < n <= |t.children|
    requires LoadChildren(t, n, customize).Ok?
    requires Load(t.children[j], customize).Ok? && k in Load(t.children[j], customize).value.entries
    requires forall i :: j < i < n && Load(t.children[i], customize).Ok? ==>
               k !in Load(t.children[i], customize).value.entries
    ensures k in LoadChildren(t, n, customize).value.entries
    ensures LoadChildren(t, n, customize).value.entries[k] == Load(t.children[j], customize).value.entries[k]
    decreases n
  {
    var prev := LoadChildren(t, n - 1, customize);
    var sub := Load(t.children[n - 1], customize);
    if n - 1 == j {
      UpdateTakesNew(prev.value, sub.value, k);
    } else {
      LaterChildWinsUpTo(t, j, n - 1, k, customize);
      UpdateKeepsOld(prev.value, sub.value, k);
    }
  }

  /**
   * `load_bibtex` as the program runs it: a directory fills one dictionary
   * object in place, updating it with each child's dictionary in turn.
   */
  method LoadBibtex(t: Tree, customize: Record -> Record) returns (r: Result<Dict, Error>)
    ensures r == Load(t, customize)
    decreases t
  {
    match t
    case File(path, parsed) =>
      if !EndsWith(path, BibSuffix) {
        r := Ok(Empty);
      } else {
        r := Ok(Customized(parsed, customize));
      }
    case Other(path) =>
      r := Err(NotFileOrDir(path));
    case Dir(children) =>
      var refs := new MutableDict(Empty);
      var i := 0;
      while i < |children|
        invariant i <= |children|
        invariant refs.Valid() && LoadChildren(t, i, customize) == Ok(refs.Value())
      {
        var sub := LoadBibtex(children[i], customize);
        if sub.Err? {
          LoadChildrenErrSticks(t, i + 1, |children|, customize);
          return Err(sub.error);
        }
        refs.Update(sub.value);
        i := i + 1;
      }
      r := Ok(refs.Value());
  }

  /** The dictionary the merge starts from. */
  function Initial(stored: Stored): Dict {
    match stored
    case Loaded(d) => d
    case Absent => Empty
  }

  /**
   * The dictionary `bibtex2dict` writes back: the stored one updated with
   * the freshly loaded one. When loading the input fails nothing is written.
   */
  function Collected(stored: Stored, bib: Tree, customize: Record -> Record): Result<Dict, Error> {
    match Load(bib, customize)
    case Err(e) => Err(e)
    case Ok(refs) => Ok(Updated(Initial(stored), refs))
  }

  /** `bibtex2dict`: start from the stored dictionary, load the input, update in place. */
  method Bibtex2Dict(stored: Stored, bib: Tree, customize: Record -> Record) returns (r: Result<Dict, Error>)
    ensures r == Collected(stored, bib, customize)
  {
    var current := new MutableDict(Initial(stored));
    var refs := LoadBibtex(bib, customize);
    if refs.Err? {
      return Err(refs.error);
    }
    current.Update(refs.value);
    r := Ok(current.Value());
  }

  /**
   * After a run the keys are exactly the stored keys and the freshly loaded
   * ones; a freshly loaded key gets its new record whole; a key only the store has
   * keeps its record and its position, and the new keys follow the stored
   * ones in the order they were loaded.
   */
  lemma CollectedMerges(stored: Stored, bib: Tree, customize: Record -> Record, k: Key)
    requires Load(bib, customize).Ok?
    ensures Collected(stored, bib, customize).Ok?
    ensures var prior := Initial(stored); var refs := Load(bib, customize).value;
            var r := Collected(stored, bib, customize).value;
            && r.entries.Keys == prior.entries.Keys + refs.entries.Keys
            && (k in refs.entries ==> r.entries[k] == refs.entries[k])
            && (k in prior.entries && k !in refs.entries ==> r.entries[k] == prior.entries[k])
            && |prior.keys| <= |r.keys|
            && r.keys[..|prior.keys|] == prior.keys
            && r.keys[|prior.keys|..] == NewKeys(refs.keys, prior.entries)
  {
    var prior := Initial(stored);
    var refs := Load(bib, customize).value;
    UpdateIsMerged(prior, refs);
    var r := Updated(prior, refs);
    assert r.keys == prior.keys + NewKeys(refs.keys, prior.entries);
  }

  /** When nothing could be read from the store, the result is the freshly loaded dictionary alone. */
  lemma CollectedFromAbsent(bib: Tree, customize: Record -> Record)
    ensures Collected(Absent, bib, customize) == Load(bib, customize)
  {
    if Load(bib, customize).Ok? {
      UpdateEmpty(Load(bib, customize).value);
    }
  }

  /** Collecting the same input again over the result of a run changes nothing. */
  lemma CollectedIdempotent(stored: Stored, bib: Tree, customize: Record -> Record)
    requires Collected(stored, bib, customize).Ok?
    ensures Collected(Loaded(Collected(stored, bib, customize).value), bib, customize)
            == Collected(stored, bib, customize)
  {
    UpdateIdempotent(Initial(stored), Load(bib, customize).value);
  }

  /**
   * A directory holding `a.bib` and `notes.txt`, collected with no stored
   * dictionary, gives the entries of `a.bib` alone: the text file is skipped.
   */
  lemma SkippedFileExample(a: Dict, notes: Dict, customize: Record -> Record)
    ensures Collected(Absent, Dir([File("a.bib", a), File("notes.txt", notes)]), customize)
            == Ok(Customized(a, customize))
  {
    var t := Dir([File("a.bib", a), File("notes.txt", notes)]);
    var ca := Customized(a, customize);
    assert EndsWith("a.bib", BibSuffix);
    assert !EndsWith("notes.txt", BibSuffix) by {
      assert "notes.txt"[5..] == ".txt";
    }
    UpdateEmpty(ca);
    assert LoadChildren(t, 1, customize) == Ok(ca);
    assert Load(t.children[1], customize) == Ok(Empty);
    assert Updated(ca, Empty) == ca;
    assert LoadChildren(t, 2, customize) == Ok(ca);
    assert Load(t, customize) == Ok(ca);
  }
}
