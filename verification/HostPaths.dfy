/** Host paths, and the loop of tools/qfs2.py that gives every inode of a volume its path. */
module HostPaths {
  import opened Bits
  import opened Bytes
  import opened Options
  import opened Qfs2Format
  import opened Qfs2Volume
  import opened Qfs2Path

  const DOT: byte := 0x2e

  // ---------------------------------------------------------------------------------------------
  // Path texts
  // ---------------------------------------------------------------------------------------------

  predicate Ascii(s: Text) { forall i :: 0 <= i < |s| ==> s[i] < 128 }

  /** The texts of seven-bit characters. */
  lemma AsciiIs(s: Text)
    ensures Ascii(s) <==> forall i :: 0 <= i < |s| ==> !Bit(s[i], 7)
  {
    forall i | 0 <= i < |s|
      ensures s[i] < 128 <==> !Bit(s[i], 7)
    {
      SevenBits(s[i]);
    }
    hide Bit;
  }

  lemma SevenBits(c: byte)
    ensures c < 128 <==> !Bit(c, 7)
  {
    BitFour(c, 3);
    assert Bit(c / 16, 3) == Bit(c / 16 / 2, 2) == Bit(c / 16 / 2 / 2, 1) == Bit(c / 16 / 2 / 2 / 2, 0);
  }

  /** A name that can stand between slashes. */
  predicate Piece(name: Name) { name != [] && Lacks(name, SLASH) }

  predicate PathPieces(p: seq<Name>) { forall i :: 0 <= i < |p| ==> Piece(p[i]) }

  function Slashed(p: seq<Name>): Text {
    if p == [] then [] else Slashed(p[..|p| - 1]) + [SLASH] + p[|p| - 1]
  }

  /** The host's text of a path: `/` for the root, `/a/b` below it. */
  function HostText(p: seq<Name>): Text { if p == [] then [SLASH] else Slashed(p) }

  /** `rstrip("/")` */
  function Strip(t: Text): Text
    decreases |t|
  {
    if t != [] && t[|t| - 1] == SLASH then Strip(t[..|t| - 1]) else t
  }

  /** The position of the last slash. */
  function LastSlash(t: Text): (r: Option<nat>)
    ensures r.Some? ==> r.value < |t| && t[r.value] == SLASH && forall i :: r.value < i < |t| ==> t[i] != SLASH
    ensures r.None? ==> forall i :: 0 <= i < |t| ==> t[i] != SLASH
    decreases |t|
  {
    if t == [] then None
    else if t[|t| - 1] == SLASH then Some(|t| - 1)
    else LastSlash(t[..|t| - 1])
  }

  lemma LastSlashIs(a: Text, name: Text)
    requires Lacks(name, SLASH)
    ensures LastSlash(a + [SLASH] + name) == Some(|a|)
  {
    hide LastSlash;
    var t := a + [SLASH] + name;
    assert t[|a|] == SLASH;
    forall i | |a| < i < |t|
      ensures t[i] != SLASH
    {
      ConcatAt(a + [SLASH], name, i);
    }
    var r := LastSlash(t).value;
    assert !(r < |a|) && !(r > |a|);
  }

  lemma SlashedStrip(p: seq<Name>)
    requires PathPieces(p)
    ensures Strip(HostText(p)) == Slashed(p)
    ensures p != [] ==> HostText(p) == Slashed(p) && Slashed(p) != [] && Slashed(p)[|Slashed(p)| - 1] != SLASH
  {
    if p == [] {
      assert [SLASH][..0] == [];
      assert Strip([]) == [];
    } else {
      var last := p[|p| - 1];
      assert Piece(last);
    }
  }

  /** Different paths have different texts. */
  lemma {:induction false} SlashedInjective(p: seq<Name>, q: seq<Name>)
    requires PathPieces(p) && PathPieces(q) && Slashed(p) == Slashed(q)
    ensures p == q
    decreases |p|
  {
    if p != [] && q != [] {
      var x, y := p[|p| - 1], q[|q| - 1];
      assert Piece(x) && Piece(y);
      var a, b := Slashed(p[..|p| - 1]), Slashed(q[..|q| - 1]);
      LastSlashIs(a, x);
      LastSlashIs(b, y);
      assert Slashed(p)[..|a|] == a && Slashed(q)[..|b|] == b;
      assert Slashed(p)[|a| + 1..] == x && Slashed(q)[|b| + 1..] == y;
      SlashedInjective(p[..|p| - 1], q[..|q| - 1]);
      assert p == p[..|p| - 1] + [x] && q == q[..|q| - 1] + [y];
    }
  }

  lemma HostTextInjective(p: seq<Name>, q: seq<Name>)
    requires PathPieces(p) && PathPieces(q) && HostText(p) == HostText(q)
    ensures p == q
  {
    SlashedStrip(p);
    SlashedStrip(q);
    SlashedInjective(p, q);
  }

  /** `_split_path`: parent and name of a path below the root. */
  function SplitHost(path: Text): Option<(Text, Name)> {
    if path == [] || path[0] != SLASH || path == [SLASH] then None
    else
      var t := Strip(path);
      match LastSlash(t)
      case None => None
      case Some(i) => if i + 1 == |t| then None else Some((if i == 0 then [SLASH] else t[..i], t[i + 1..]))
  }

  lemma SlashedLast(at: seq<Name>, name: Name)
    requires PathPieces(at) && Piece(name)
    ensures PathPieces(at + [name]) && name != [] && Lacks(name, SLASH)
    ensures HostText(at + [name]) == Slashed(at) + [SLASH] + name
    ensures at == [] <==> Slashed(at) == []
  {
    hide Lacks;
    assert (at + [name])[..|at|] == at;
  }

  lemma SplitHostText(at: seq<Name>, name: Name)
    requires PathPieces(at) && Piece(name)
    ensures SplitHost(HostText(at + [name])) == Some((HostText(at), name))
    ensures Strip(HostText(at + [name])) == HostText(at + [name])
  {
    hide PathPieces;
    hide Piece;
    hide Strip;
    hide LastSlash;
    hide Slashed;
    SlashedLast(at, name);
    var p, t := at + [name], HostText(at + [name]);
    SlashedStrip(p);
    SlashedStrip(at);
    LastSlashIs(Slashed(at), name);
    assert t[|Slashed(at)| + 1..] == name && t[..|Slashed(at)|] == Slashed(at);
    FirstSlash(p);
  }

  lemma {:induction false} FirstSlash(p: seq<Name>)
    requires p != []
    ensures Slashed(p) != [] && Slashed(p)[0] == SLASH
    decreases |p|
  {
    if |p| > 1 { FirstSlash(p[..|p| - 1]); }
  }

  // ---------------------------------------------------------------------------------------------
  // Dictionaries
  // ---------------------------------------------------------------------------------------------

  /** A dictionary that remembers the order of its keys. */
  datatype Dict = Dict(keys: seq<nat>, at: map<nat, Text>)

  function Put(d: Dict, k: nat, v: Text): Dict {
    Dict(if k in d.at then d.keys else d.keys + [k], d.at[k := v])
  }

  ghost predicate DictOk(d: Dict) {
    forall k: nat :: k in d.at <==> k in d.keys
  }

  lemma PutOk(d: Dict, k: nat, v: Text)
    requires DictOk(d)
    ensures DictOk(Put(d, k, v))
  {
  }

  predicate KeysOk(d: Dict) { forall i :: 0 <= i < |d.keys| ==> d.keys[i] in d.at }

  /** `{value: key for key, value in paths.items()}`, from the first `n` keys. */
  function Inverse(d: Dict, n: nat): map<Text, nat>
    requires n <= |d.keys| && KeysOk(d)
  {
    if n == 0 then map[] else Inverse(d, n - 1)[d.at[d.keys[n - 1]] := d.keys[n - 1]]
  }

  predicate Injective(d: Dict) {
    forall j, k :: j in d.at && k in d.at && d.at[j] == d.at[k] ==> j == k
  }

  lemma {:induction false} InverseIs(d: Dict, n: nat, t: Text)
    requires DictOk(d) && Injective(d) && n <= |d.keys|
    ensures t in Inverse(d, n) <==> exists i :: 0 <= i < n && d.at[d.keys[i]] == t
    ensures t in Inverse(d, n) ==> Inverse(d, n)[t] in d.at && d.at[Inverse(d, n)[t]] == t
  {
    if n > 0 { InverseIs(d, n - 1, t); }
  }

  /** In the whole inverse a text leads to the one key that has it. */
  lemma InverseFinds(d: Dict, t: Text)
    requires DictOk(d) && Injective(d)
    ensures t in Inverse(d, |d.keys|) <==> exists k :: k in d.at && d.at[k] == t
    ensures forall k :: k in d.at && d.at[k] == t ==> t in Inverse(d, |d.keys|) && Inverse(d, |d.keys|)[t] == k
  {
    InverseIs(d, |d.keys|, t);
    forall k | k in d.at && d.at[k] == t
      ensures t in Inverse(d, |d.keys|)
    {
      var i :| 0 <= i < |d.keys| && d.keys[i] == k;
    }
  }

  // ---------------------------------------------------------------------------------------------
  // The pending loop
  // ---------------------------------------------------------------------------------------------

  /** The name bytes as the host cuts them. */
  function Cut(e: Dentry): Name {
    if e.nameLength <= |e.name| then e.name[..e.nameLength] else e.name
  }

  /** One pass over the pending entries: those whose parent has a path give their inode one, the others
      stay.  `None` stands for the exception on a name that is not ASCII. */
  function Pass(pending: seq<Dentry>, paths: Dict): (r: Option<(seq<Dentry>, Dict)>)
    ensures r.Some? ==> |r.value.0| <= |pending|
    decreases |pending|
  {
    if pending == [] then Some(([], paths))
    else
      var e := pending[0];
      if e.parent !in paths.at then
        match Pass(pending[1..], paths)
        case None => None
        case Some((left, p)) => Some(([e] + left, p))
      else if !Ascii(Cut(e)) then None
      else Pass(pending[1..], Put(paths, e.inode, Strip(paths.at[e.parent]) + [SLASH] + Cut(e)))
  }

  /** Passes until nothing is pending; `None` also when a pass gets nowhere. */
  function Settle(pending: seq<Dentry>, paths: Dict): Option<Dict>
    decreases |pending|
  {
    if pending == [] then Some(paths)
    else
      match Pass(pending, paths)
      case None => None
      case Some((left, p)) => if |left| == |pending| then None else Settle(left, p)
  }

  function Pending(entries: seq<Dentry>): seq<Dentry> {
    if entries == [] then []
    else
      var init, last := entries[..|entries| - 1], entries[|entries| - 1];
      Pending(init) + if last.nameLength != 0 then [last] else []
  }

  const ROOT_PATHS: Dict := Dict([ROOT_INODE], map[ROOT_INODE := [SLASH]])

  /** The paths of all inodes, as parse_volume and create_node compute them. */
  function PathsOf(v: Volume): Option<Dict> { Settle(Pending(v.entries), ROOT_PATHS) }

  lemma {:induction false} PassKeys(pending: seq<Dentry>, paths: Dict)
    requires KeysOk(paths)
    ensures Pass(pending, paths).Some? ==> KeysOk(Pass(pending, paths).value.1)
    decreases |pending|
  {
    if pending != [] {
      var e := pending[0];
      if e.parent !in paths.at {
        PassKeys(pending[1..], paths);
      } else {
        PassKeys(pending[1..], Put(paths, e.inode, Strip(paths.at[e.parent]) + [SLASH] + Cut(e)));
      }
    }
  }

  lemma {:induction false} SettleKeys(pending: seq<Dentry>, paths: Dict)
    requires KeysOk(paths)
    ensures Settle(pending, paths).Some? ==> KeysOk(Settle(pending, paths).value)
    decreases |pending|
  {
    if pending != [] && Pass(pending, paths).Some? {
      var (left, p) := Pass(pending, paths).value;
      PassKeys(pending, paths);
      if |left| < |pending| { SettleKeys(left, p); }
    }
  }

  /** The dictionary's keys are in it. */
  lemma PathsKeys(v: Volume)
    ensures PathsOf(v).Some? ==> KeysOk(PathsOf(v).value)
  {
    SettleKeys(Pending(v.entries), ROOT_PATHS);
  }

  /** The loop in its own form. */
  method FindPaths(entries: seq<Dentry>) returns (ok: bool, paths: Dict)
    ensures ok <==> PathsOf(Volume([], entries)).Some?
    ensures ok ==> PathsOf(Volume([], entries)) == Some(paths)
  {
    paths := ROOT_PATHS;
    var pending: seq<Dentry> := [];
    for i := 0 to |entries|
      invariant pending == Pending(entries[..i])
    {
      assert entries[..i + 1][..i] == entries[..i];
      if entries[i].nameLength != 0 { pending := pending + [entries[i]]; }
    }
    assert entries[..|entries|] == entries;
    while |pending| > 0
      invariant Settle(pending, paths) == Settle(Pending(entries), ROOT_PATHS)
      decreases |pending|
    {
      var before := |pending|;
      ghost var start := paths;
      var remaining: seq<Dentry> := [];
      assert pending[0..] == pending;
      ContinuesStart(pending, paths);
      for i := 0 to |pending|
        invariant |remaining| <= i
        invariant Continues(remaining, pending[i..], paths, Pass(pending, start))
      {
        var entry := pending[i];
        assert pending[i..][0] == entry && pending[i..][1..] == pending[i + 1..];
        ContinuesStep(remaining, pending[i..], paths, Pass(pending, start));
        hide Pass;
        if entry.parent !in paths.at {
          remaining := remaining + [entry];
        } else {
          if !Ascii(Cut(entry)) { return false, paths; }
          paths := Put(paths, entry.inode, Strip(paths.at[entry.parent]) + [SLASH] + Cut(entry));
        }
      }
      assert pending[|pending|..] == [];
      ContinuesEnd(remaining, paths, Pass(pending, start));
      pending := remaining;
      if |pending| == before { return false, paths; }
    }
    ok := true;
  }

  /** What is left of a pass, from its middle. */
  ghost predicate Continues(done: seq<Dentry>, rest: seq<Dentry>, paths: Dict, all: Option<(seq<Dentry>, Dict)>) {
    match Pass(rest, paths)
    case None => all == None
    case Some((left, p)) => all == Some((done + left, p))
  }

  lemma ContinuesStart(pending: seq<Dentry>, paths: Dict)
    ensures Continues([], pending, paths, Pass(pending, paths))
  {
    match Pass(pending, paths)
    case None =>
    case Some((left, p)) => assert [] + left == left;
  }

  lemma ContinuesStep(done: seq<Dentry>, rest: seq<Dentry>, paths: Dict, all: Option<(seq<Dentry>, Dict)>)
    requires rest != [] && Continues(done, rest, paths, all)
    ensures var e := rest[0];
            if e.parent !in paths.at then Continues(done + [e], rest[1..], paths, all)
            else if !Ascii(Cut(e)) then all == None
            else Continues(done, rest[1..], Put(paths, e.inode, Strip(paths.at[e.parent]) + [SLASH] + Cut(e)), all)
  {
    var e := rest[0];
    if e.parent !in paths.at {
      match Pass(rest[1..], paths)
      case None =>
      case Some((left, p)) => assert done + ([e] + left) == done + [e] + left;
    }
  }

  lemma ContinuesEnd(done: seq<Dentry>, paths: Dict, all: Option<(seq<Dentry>, Dict)>)
    requires Continues(done, [], paths, all)
    ensures all == Some((done, paths))
  {
    assert done + [] == done;
  }

  // ---------------------------------------------------------------------------------------------
  // What it computes on a well-formed volume
  // ---------------------------------------------------------------------------------------------

  predicate AsciiEntry(e: Dentry) { Used(e) ==> Ascii(NameOf(e)) }

  predicate AsciiVolume(v: Volume) { forall j :: 0 <= j < |v.entries| ==> AsciiEntry(v.entries[j]) }

  ghost predicate PathOf(v: Volume, n: nat, t: Text) {
    exists p :: Resolve(v, ROOT_INODE, p) == Some(n) && t == HostText(p)
  }

  ghost predicate Described(v: Volume, paths: Dict) {
    && DictOk(paths) && ROOT_INODE in paths.at
    && forall n :: n in paths.at ==> PathOf(v, n, paths.at[n])
  }

  /** Every used entry is still pending or its inode has its path. */
  ghost predicate Covered(v: Volume, pending: seq<Dentry>, paths: Dict) {
    forall j :: 0 <= j < |v.entries| && Used(v.entries[j]) ==> v.entries[j] in pending || v.entries[j].inode in paths.at
  }

  predicate FromVolume(v: Volume, e: Dentry) {
    Used(e) && e in v.entries
  }

  ghost predicate Open(v: Volume, pending: seq<Dentry>, paths: Dict) {
    && (forall i :: 0 <= i < |pending| ==> FromVolume(v, pending[i]) && pending[i].inode !in paths.at)
    && (forall i, j :: 0 <= i < j < |pending| ==> pending[i].inode != pending[j].inode)
  }

  ghost predicate Progressing(v: Volume, pending: seq<Dentry>, paths: Dict) {
    Described(v, paths) && Covered(v, pending, paths) && Open(v, pending, paths)
  }

  ghost predicate Ready(pending: seq<Dentry>, paths: Dict) {
    exists i :: 0 <= i < |pending| && pending[i].parent in paths.at
  }

  lemma UsedEntry(v: Volume, e: Dentry)
    requires WellFormed(v) && FromVolume(v, e)
    ensures TreeName(NameOf(e)) && Cut(e) == NameOf(e) && Child(v, e.parent, NameOf(e)) == Some(e.inode)
  {
    var j :| 0 <= j < |v.entries| && v.entries[j] == e;
    assert EntryOk(v, j);
    ChildIs(v, e.parent, NameOf(e), j);
  }

  lemma LegalPiece(name: Name)
    requires TreeName(name)
    ensures Piece(name)
  {
  }

  lemma {:induction false} ResolvedPieces(v: Volume, p: seq<Name>)
    requires WellFormed(v) && Resolve(v, ROOT_INODE, p).Some?
    ensures PathPieces(p)
    decreases |p|
  {
    if p != [] {
      var init, last := p[..|p| - 1], p[|p| - 1];
      assert p == init + [last];
      ResolveLast(v, init, last);
      ResolvedPieces(v, init);
      var j := FindFromFound(v.entries, 0, Resolve(v, ROOT_INODE, init).value, last);
      assert EntryOk(v, j);
      LegalPiece(last);
    }
  }

  /** The path given to a child is its path. */
  lemma ChildPath(v: Volume, e: Dentry, t: Text)
    requires WellFormed(v) && FromVolume(v, e) && PathOf(v, e.parent, t)
    ensures PathOf(v, e.inode, Strip(t) + [SLASH] + Cut(e))
  {
    UsedEntry(v, e);
    var p :| Resolve(v, ROOT_INODE, p) == Some(e.parent) && t == HostText(p);
    var q := p + [NameOf(e)];
    ResolveLast(v, p, NameOf(e));
    ResolvedPieces(v, p);
    SlashedStrip(p);
    assert q[..|q| - 1] == p;
    assert HostText(q) == Slashed(p) + [SLASH] + NameOf(e);
  }

  /** Resolving one pending entry whose parent has a path. */
  lemma GiveStep(v: Volume, done: seq<Dentry>, rest: seq<Dentry>, paths: Dict)
    requires WellFormed(v) && rest != [] && Progressing(v, done + rest, paths) && rest[0].parent in paths.at
    ensures var e := rest[0];
            Progressing(v, done + rest[1..], Put(paths, e.inode, Strip(paths.at[e.parent]) + [SLASH] + Cut(e)))
  {
    hide PathOf;
    hide Strip;
    hide WellFormed;
    hide Put;
    hide Used;
    var e, all, left := rest[0], done + rest, done + rest[1..];
    var text := Strip(paths.at[e.parent]) + [SLASH] + Cut(e);
    PendingFrom(v, done, rest, paths);
    ChildPath(v, e, paths.at[e.parent]);
    PutDescribed(v, paths, e.inode, text);
    WithoutFirst(done, rest);
    PutCovered(v, all, left, paths, e, text);
    PutOpen(v, done, rest, paths, text);
  }

  lemma PutDescribed(v: Volume, paths: Dict, n: nat, text: Text)
    requires Described(v, paths) && PathOf(v, n, text)
    ensures Described(v, Put(paths, n, text))
  {
    hide PathOf;
    PutOk(paths, n, text);
  }

  lemma WithoutFirst(done: seq<Dentry>, rest: seq<Dentry>)
    requires rest != []
    ensures forall x :: x in done + rest ==> x == rest[0] || x in done + rest[1..]
  {
    assert rest == [rest[0]] + rest[1..];
  }

  lemma PutCovered(v: Volume, all: seq<Dentry>, left: seq<Dentry>, paths: Dict, e: Dentry, text: Text)
    requires Covered(v, all, paths) && forall x :: x in all ==> x == e || x in left
    ensures Covered(v, left, Put(paths, e.inode, text))
  {
    hide Used;
  }

  lemma PutOpen(v: Volume, done: seq<Dentry>, rest: seq<Dentry>, paths: Dict, text: Text)
    requires rest != [] && Open(v, done + rest, paths)
    ensures Open(v, done + rest[1..], Put(paths, rest[0].inode, text))
  {
    hide FromVolume;
    var all, left := done + rest, done + rest[1..];
    assert all[|done|] == rest[0];
    assert forall i :: 0 <= i < |left| ==> left[i] == all[if i < |done| then i else i + 1];
  }

  lemma KeepStep(v: Volume, done: seq<Dentry>, rest: seq<Dentry>, paths: Dict)
    requires rest != [] && Progressing(v, done + rest, paths)
    ensures Progressing(v, done + [rest[0]] + rest[1..], paths)
  {
    assert done + [rest[0]] + rest[1..] == done + rest;
  }

  lemma PendingFrom(v: Volume, done: seq<Dentry>, rest: seq<Dentry>, paths: Dict)
    requires rest != [] && Progressing(v, done + rest, paths)
    ensures FromVolume(v, rest[0])
  {
    assert (done + rest)[|done|] == rest[0];
  }

  /** A pass keeps the bookkeeping right, and gets somewhere if any pending entry is ready. */
  lemma {:induction false} PassOk(v: Volume, done: seq<Dentry>, rest: seq<Dentry>, paths: Dict)
    requires WellFormed(v) && AsciiVolume(v) && Progressing(v, done + rest, paths)
    ensures Pass(rest, paths).Some?
    ensures var (left, p) := Pass(rest, paths).value;
            Progressing(v, done + left, p) && (Ready(rest, paths) ==> |left| < |rest|)
    decreases |rest|
  {
    hide WellFormed;
    hide AsciiVolume;
    hide Progressing;
    hide Strip;
    hide Ascii;
    hide TreeName;
    hide Child;
    if rest != [] {
      var e := rest[0];
      PendingFrom(v, done, rest, paths);
      if e.parent !in paths.at {
        KeepStep(v, done, rest, paths);
        PassOk(v, done + [e], rest[1..], paths);
        var (left, p) := Pass(rest[1..], paths).value;
        assert done + [e] + left == done + ([e] + left);
        if Ready(rest, paths) {
          var i :| 0 <= i < |rest| && rest[i].parent in paths.at;
          assert rest[1..][i - 1] == rest[i];
        }
      } else {
        UsedEntry(v, e);
        EntryAscii(v, e);
        GiveStep(v, done, rest, paths);
        PassOk(v, done, rest[1..], Put(paths, e.inode, Strip(paths.at[e.parent]) + [SLASH] + Cut(e)));
      }
    }
  }

  lemma EntryAscii(v: Volume, e: Dentry)
    requires AsciiVolume(v) && FromVolume(v, e)
    ensures Ascii(NameOf(e))
  {
    var j :| 0 <= j < |v.entries| && v.entries[j] == e;
    assert AsciiEntry(v.entries[j]);
  }

  /** On the way to a node without a path there is a pending entry whose parent has one. */
  lemma {:induction false} Frontier(v: Volume, pending: seq<Dentry>, paths: Dict, p: seq<Name>)
    requires WellFormed(v) && Progressing(v, pending, paths)
    requires Resolve(v, ROOT_INODE, p).Some? && Resolve(v, ROOT_INODE, p).value !in paths.at
    ensures Ready(pending, paths)
    decreases |p|
  {
    assert p != [];
    var init, last := p[..|p| - 1], p[|p| - 1];
    assert p == init + [last];
    ResolveLast(v, init, last);
    var m := Resolve(v, ROOT_INODE, init).value;
    if m in paths.at {
      var j := FindFromFound(v.entries, 0, m, last);
      assert v.entries[j] in pending;
      var i :| 0 <= i < |pending| && pending[i] == v.entries[j];
    } else {
      Frontier(v, pending, paths, init);
    }
  }

  /** The path dictionary of a well-formed volume: exactly the live inodes, each with the text of the
      path that leads to it. */
  ghost predicate PathsRight(v: Volume, paths: Dict) {
    && DictOk(paths)
    && (forall n :: n in paths.at <==> Live(v, n))
    && (forall n :: n in paths.at ==> PathOf(v, n, paths.at[n]))
  }

  lemma {:induction false} SettleOk(v: Volume, pending: seq<Dentry>, paths: Dict)
    requires WellFormed(v) && AsciiVolume(v) && Progressing(v, pending, paths)
    ensures Settle(pending, paths).Some? && PathsRight(v, Settle(pending, paths).value)
    decreases |pending|
  {
    hide WellFormed;
    if pending == [] {
      assert !Ready([], paths);
      AllDescribed(v, paths);
    } else {
      assert [] + pending == pending;
      PassOk(v, [], pending, paths);
      var (left, p) := Pass(pending, paths).value;
      assert [] + left == left;
      PendingReady(v, pending, paths);
      SettleOk(v, left, p);
    }
  }

  lemma PendingReady(v: Volume, pending: seq<Dentry>, paths: Dict)
    requires WellFormed(v) && Progressing(v, pending, paths) && pending != []
    ensures Ready(pending, paths)
  {
    var e := pending[0];
    var j :| 0 <= j < |v.entries| && v.entries[j] == e;
    assert EntryOk(v, j) && Live(v, e.inode);
    assert Reached(v, e.inode);
    var path :| Resolve(v, ROOT_INODE, path) == Some(e.inode);
    Frontier(v, pending, paths, path);
  }

  lemma AllDescribed(v: Volume, paths: Dict)
    requires WellFormed(v) && Progressing(v, [], paths)
    ensures PathsRight(v, paths)
  {
    forall n | Live(v, n)
      ensures n in paths.at
    {
      assert Reached(v, n);
      var path :| Resolve(v, ROOT_INODE, path) == Some(n);
      if n !in paths.at { Frontier(v, [], paths, path); }
    }
    forall n | n in paths.at
      ensures Live(v, n)
    {
      assert PathOf(v, n, paths.at[n]);
      var p :| Resolve(v, ROOT_INODE, p) == Some(n) && paths.at[n] == HostText(p);
      ResolveLive(v, p);
    }
  }

  lemma {:induction false} PendingIs(entries: seq<Dentry>, e: Dentry)
    ensures e in Pending(entries) <==> e in entries && e.nameLength != 0
    decreases |entries|
  {
    if entries != [] {
      PendingIs(entries[..|entries| - 1], e);
      assert entries == entries[..|entries| - 1] + [entries[|entries| - 1]];
    }
  }

  lemma {:induction false} PendingDistinct(v: Volume, k: nat)
    requires WellFormed(v) && k <= |v.entries|
    ensures forall i, j :: 0 <= i < j < |Pending(v.entries[..k])| ==>
              Pending(v.entries[..k])[i].inode != Pending(v.entries[..k])[j].inode
  {
    if k > 0 {
      var init, last := v.entries[..k - 1], v.entries[k - 1];
      PendingDistinct(v, k - 1);
      assert v.entries[..k][..k - 1] == init;
      var p := Pending(init);
      forall i | 0 <= i < |p| && last.nameLength != 0
        ensures p[i].inode != last.inode
      {
        PendingIs(init, p[i]);
        var m :| 0 <= m < |init| && init[m] == p[i];
        assert EntryOk(v, m) && EntryOk(v, k - 1);
        assert !Clash(v.entries[m], v.entries[k - 1]);
      }
    }
  }

  /** Reading the paths of a well-formed volume with ASCII names succeeds, and gives every live inode,
      and nothing else, the text of its path. */
  lemma PathsOfOk(v: Volume)
    requires WellFormed(v) && AsciiVolume(v)
    ensures PathsOf(v).Some? && PathsRight(v, PathsOf(v).value)
  {
    var pending := Pending(v.entries);
    assert v.entries[..|v.entries|] == v.entries;
    PendingDistinct(v, |v.entries|);
    assert Resolve(v, ROOT_INODE, []) == Some(ROOT_INODE);
    assert PathOf(v, ROOT_INODE, HostText([]));
    forall i | 0 <= i < |pending|
      ensures FromVolume(v, pending[i]) && pending[i].inode != ROOT_INODE
    {
      PendingIs(v.entries, pending[i]);
      var m :| 0 <= m < |v.entries| && v.entries[m] == pending[i];
      assert EntryOk(v, m);
    }
    forall j | 0 <= j < |v.entries| && Used(v.entries[j])
      ensures v.entries[j] in pending
    {
      PendingIs(v.entries, v.entries[j]);
    }
    SettleOk(v, pending, ROOT_PATHS);
  }

  lemma {:induction false} PassAscii(pending: seq<Dentry>, paths: Dict)
    requires Pass(pending, paths).Some?
    ensures forall e :: e in pending ==> e in Pass(pending, paths).value.0 || Ascii(Cut(e))
    decreases |pending|
  {
    if pending != [] {
      var e := pending[0];
      assert pending == [e] + pending[1..];
      PassAscii(pending[1..], if e.parent !in paths.at then paths
                              else Put(paths, e.inode, Strip(paths.at[e.parent]) + [SLASH] + Cut(e)));
    }
  }

  lemma {:induction false} SettleAscii(pending: seq<Dentry>, paths: Dict)
    requires Settle(pending, paths).Some?
    ensures forall e :: e in pending ==> Ascii(Cut(e))
    decreases |pending|
  {
    if pending != [] {
      PassAscii(pending, paths);
      var (left, p) := Pass(pending, paths).value;
      SettleAscii(left, p);
    }
  }

  /** On a well-formed volume a name that is not ASCII is the only thing that stops the host. */
  lemma PathsOfExactly(v: Volume)
    requires WellFormed(v)
    ensures PathsOf(v).Some? <==> AsciiVolume(v)
  {
    if AsciiVolume(v) { PathsOfOk(v); }
    if PathsOf(v).Some? {
      SettleAscii(Pending(v.entries), ROOT_PATHS);
      forall j | 0 <= j < |v.entries|
        ensures AsciiEntry(v.entries[j])
      {
        PendingIs(v.entries, v.entries[j]);
        assert EntryOk(v, j);
      }
    }
  }

  /** Paths of different inodes differ, and each path's text is found under its inode. */
  lemma PathsFind(v: Volume, paths: Dict, p: seq<Name>)
    requires WellFormed(v) && PathsRight(v, paths) && PathPieces(p)
    ensures Injective(paths)
    ensures Resolve(v, ROOT_INODE, p).Some? ==>
              Resolve(v, ROOT_INODE, p).value in paths.at && paths.at[Resolve(v, ROOT_INODE, p).value] == HostText(p)
    ensures (exists n :: n in paths.at && paths.at[n] == HostText(p)) ==> Resolve(v, ROOT_INODE, p).Some?
  {
    forall j, k | j in paths.at && k in paths.at && paths.at[j] == paths.at[k]
      ensures j == k
    {
      SameText(v, j, k, paths.at[j]);
    }
    if Resolve(v, ROOT_INODE, p).Some? {
      var n := Resolve(v, ROOT_INODE, p).value;
      ResolveLive(v, p);
      assert PathOf(v, n, paths.at[n]);
      var q :| Resolve(v, ROOT_INODE, q) == Some(n) && paths.at[n] == HostText(q);
      PathUnique(v, p, q);
    }
    if n :| n in paths.at && paths.at[n] == HostText(p) {
      assert PathOf(v, n, paths.at[n]);
      var q :| Resolve(v, ROOT_INODE, q) == Some(n) && paths.at[n] == HostText(q);
      ResolvedPieces(v, q);
      HostTextInjective(p, q);
    }
  }

  lemma SameText(v: Volume, j: nat, k: nat, t: Text)
    requires WellFormed(v) && PathOf(v, j, t) && PathOf(v, k, t)
    ensures j == k
  {
    var p :| Resolve(v, ROOT_INODE, p) == Some(j) && t == HostText(p);
    var q :| Resolve(v, ROOT_INODE, q) == Some(k) && t == HostText(q);
    ResolvedPieces(v, p);
    ResolvedPieces(v, q);
    HostTextInjective(p, q);
  }
}
