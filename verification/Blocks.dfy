/** The block store: files under one data directory, one per (file id, chunk). */
module Blocks {
  import opened Text
  import opened Wrappers
  import opened Metadata
  import opened Sanitize

  type Byte = bv8
  type Bytes = seq<Byte>

  // ---------- Paths ----------

  /** Path components below the data directory. */
  type Rel = seq<string>

  function ChunkName(chunk: nat): string {
    Decimal(chunk) + ".blk"
  }

  lemma ChunkNameFacts(c: nat, d: nat)
    ensures ChunkName(c) == ChunkName(d) <==> c == d
    ensures 5 <= |ChunkName(c)| && '/' !in ChunkName(c) && NUL !in ChunkName(c)
  {
    DecimalRoundTrip(c);
    DecimalRoundTrip(d);
    DecimalDigits(c);
    if ChunkName(c) == ChunkName(d) {
      assert Decimal(c) == ChunkName(c)[..|ChunkName(c)| - 4] == Decimal(d);
    }
  }

  /** A chunk's file is its number in base ten followed by ".blk". */
  lemma ChunkNameMeaning(name: string, chunk: nat)
    ensures name == ChunkName(chunk) <==>
            4 < |name| && name[|name| - 4..] == ".blk" && Prints(name[..|name| - 4], chunk)
  {
    var own := ChunkName(chunk);
    DecimalMeaning(Decimal(chunk), chunk);
    assert own[..|own| - 4] == Decimal(chunk) && own[|own| - 4..] == ".blk";
    if 4 < |name| && name[|name| - 4..] == ".blk" && Prints(name[..|name| - 4], chunk) {
      DecimalMeaning(name[..|name| - 4], chunk);
      assert name == name[..|name| - 4] + name[|name| - 4..];
    }
  }

  /** One component of `filepath.Clean`. */
  function CleanStep(rooted: bool, done: Rel, c: string): Rel {
    if c == "" || c == "." then done
    else if c == ".." then
      if done != [] && done[|done| - 1] != ".." then done[..|done| - 1]
      else if rooted then done
      else done + [c]
    else done + [c]
  }

  function Clean(rooted: bool, cs: Rel): Rel {
    if cs == [] then [] else CleanStep(rooted, Clean(rooted, cs[..|cs| - 1]), cs[|cs| - 1])
  }

  /** No empty component and no "."; ".." only in front, and not below the root. */
  predicate Shortest(rooted: bool, p: Rel) {
    && (forall i :: 0 <= i < |p| ==> p[i] != "" && p[i] != "." && !(rooted && p[i] == ".."))
    && (forall i, j :: 0 <= i < j < |p| && p[j] == ".." ==> p[i] == "..")
  }

  lemma StepShortest(rooted: bool, done: Rel, c: string)
    requires Shortest(rooted, done)
    ensures Shortest(rooted, CleanStep(rooted, done, c))
    ensures Shortest(rooted, done + [c]) ==> CleanStep(rooted, done, c) == done + [c]
  {
    var k, long := |done|, done + [c];
    assert long[k] == c && (0 < k ==> long[k - 1] == done[k - 1]);
  }

  /** Cleaning gives the shortest form, and leaves alone exactly what has it. */
  lemma {:induction false} CleanMeaning(rooted: bool, cs: Rel)
    ensures Shortest(rooted, Clean(rooted, cs))
    ensures Clean(rooted, cs) == cs <==> Shortest(rooted, cs)
  {
    if cs != [] {
      var front, c := cs[..|cs| - 1], cs[|cs| - 1];
      CleanMeaning(rooted, front);
      StepShortest(rooted, Clean(rooted, front), c);
      assert cs == front + [c];
      if Shortest(rooted, cs) {
        assert forall i :: 0 <= i < |front| ==> front[i] == cs[i];
        assert Shortest(rooted, front);
      }
    }
  }

  /** A ".." takes back the ordinary component before it. */
  lemma DotDotTakesBack(rooted: bool, cs: Rel, c: string)
    requires c != "" && c != "." && c != ".."
    ensures Clean(rooted, cs + [c, ".."]) == Clean(rooted, cs)
  {
    var done := Clean(rooted, cs);
    assert (cs + [c, ".."])[..|cs| + 1] == cs + [c] && (cs + [c])[..|cs|] == cs;
    assert Clean(rooted, cs + [c]) == done + [c];
    assert (done + [c])[..|done|] == done;
  }

  /** A block's path below the data directory; a file id that sanitises to "." vanishes. */
  function BlockPath(file: string, chunk: nat): Rel {
    var f := Sanitized(file);
    if f == "." then [ChunkName(chunk)] else [f, ChunkName(chunk)]
  }

  /** `filepath.Join(dataDir, sanitize(file), chunk + ".blk")` never leaves the data directory:
      it is the cleaned data directory followed by the block's own components. */
  lemma JoinStaysBelow(rooted: bool, dataDir: Rel, file: string, chunk: nat)
    ensures Clean(rooted, dataDir + [Sanitized(file), ChunkName(chunk)])
            == Clean(rooted, dataDir) + BlockPath(file, chunk)
  {
    var f, n := Sanitized(file), ChunkName(chunk);
    SanitizedIsNormal(file);
    ChunkNameFacts(chunk, chunk);
    assert DotDotAt("..", 1);
    var cs := dataDir + [f, n];
    assert cs[..|cs| - 1] == dataDir + [f] && (dataDir + [f])[..|dataDir|] == dataDir;
  }

  /** A block lies in the directory its sanitised id names, in the file its chunk names. */
  lemma BlockPathMeaning(file: string, chunk: nat)
    ensures var p := BlockPath(file, chunk);
            p != [] && var name := p[|p| - 1];
      && 4 < |name| && name[|name| - 4..] == ".blk" && Prints(name[..|name| - 4], chunk)
      && p[..|p| - 1] == if Sanitized(file) == "." then [] else [Sanitized(file)]
  {
    ChunkNameMeaning(ChunkName(chunk), chunk);
  }

  /** Two references share a path exactly when their ids sanitise alike and their chunks are
      equal. */
  lemma SamePathIff(f: string, c: nat, g: string, d: nat)
    ensures BlockPath(f, c) == BlockPath(g, d) <==> Sanitized(f) == Sanitized(g) && c == d
  {
    ChunkNameFacts(c, d);
  }

  // ---------- The file system ----------

  /** Files and directories below the data directory. */
  datatype FS = FS(files: map<Rel, Bytes>, dirs: set<Rel>)

  datatype IO<+T> = Done(value: T) | NotExist | IOError

  predicate BadName(p: Rel) {
    exists c :: c in p && NUL in c
  }

  /** Some directory the path goes through is really a file. */
  predicate FileAbove(fs: FS, p: Rel) {
    1 < |p| && (p[..|p| - 1] in fs.files || FileAbove(fs, p[..|p| - 1]))
  }

  function MkdirAll(fs: FS, p: Rel): IO<FS> {
    if p == [] then Done(fs)
    else if BadName(p) || p in fs.files then IOError
    else
      match MkdirAll(fs, p[..|p| - 1])
      case Done(g) => Done(g.(dirs := g.dirs + {p}))
      case _ => IOError
  }

  function WriteFile(fs: FS, p: Rel, data: Bytes): IO<FS> {
    if BadName(p) || FileAbove(fs, p) || p in fs.dirs then IOError
    else Done(fs.(files := fs.files[p := data]))
  }

  function ReadFile(fs: FS, p: Rel): IO<Bytes> {
    if BadName(p) || FileAbove(fs, p) || p in fs.dirs then IOError
    else if p in fs.files then Done(fs.files[p])
    else NotExist
  }

  /** `os.Remove` also removes an empty directory. */
  function RemoveFile(fs: FS, p: Rel): IO<FS> {
    if BadName(p) || FileAbove(fs, p) then IOError
    else if p in fs.files then Done(fs.(files := fs.files - {p}))
    else if p in fs.dirs then
      if exists q :: q in fs.files.Keys + fs.dirs && p < q then IOError else Done(fs.(dirs := fs.dirs - {p}))
    else NotExist
  }

  // ---------- Requests ----------

  datatype BlockRef = BlockRef(file: string, chunk: nat)

  datatype Request =
    | Write(block: Option<BlockRef>, data: Bytes)
    | Read(block: Option<BlockRef>, offset: nat, length: nat)
    | Delete(block: Option<BlockRef>)

  datatype Reply = Written(count: nat) | Data(bytes: Bytes) | Deleted(deleted: bool) | Failed(code: Code)

  /** The part of a block a read returns: from the offset on, cut to a positive length. */
  function Window(blob: Bytes, offset: nat, length: nat): Bytes {
    if offset > |blob| then []
    else
      var b := blob[offset..];
      if 0 < length < |b| then b[..length] else b
  }

  function Serve(fs: FS, req: Request): (FS, Reply) {
    if req.block.None? then (fs, Failed(InvalidArgument))
    else
      var p := BlockPath(req.block.value.file, req.block.value.chunk);
      match req
      case Write(_, data) =>
        (match MkdirAll(fs, p[..|p| - 1])
         case Done(g) =>
           (match WriteFile(g, p, data)
            case Done(h) => (h, Written(|data|))
            case _ => (g, Failed(Internal)))
         case _ => (fs, Failed(Internal)))
      case Read(_, offset, length) =>
        (match ReadFile(fs, p)
         case Done(blob) => (fs, Data(Window(blob, offset, length)))
         case NotExist => (fs, Failed(NotFound))
         case IOError => (fs, Failed(Internal)))
      case Delete(_) =>
        (match RemoveFile(fs, p)
         case Done(g) => (g, Deleted(true))
         case NotExist => (fs, Deleted(false))
         case IOError => (fs, Failed(Internal)))
  }

  // ---------- The simple store it refines ----------

  type Store = map<(string, nat), Bytes>

  function SlotOf(r: BlockRef): (string, nat) {
    (Sanitized(r.file), r.chunk)
  }

  function StoreServe(m: Store, req: Request): (Store, Reply) {
    if req.block.None? then (m, Failed(InvalidArgument))
    else
      var k := SlotOf(req.block.value);
      match req
      case Write(_, data) => (m[k := data], Written(|data|))
      case Read(_, offset, length) => (m, if k in m then Data(Window(m[k], offset, length)) else Failed(NotFound))
      case Delete(_) => (m - {k}, Deleted(k in m))
  }

  /** The id names an ordinary directory of its own. */
  predicate Usable(file: string) {
    Sanitized(file) != "." && NUL !in Sanitized(file)
  }

  predicate UsableRequest(req: Request) {
    req.block.Some? ==> Usable(req.block.value.file)
  }

  predicate SlotOk(fs: FS, m: Store, f: string, c: nat) {
    var p := [f, ChunkName(c)];
    ((f, c) in m <==> p in fs.files) && ((f, c) in m ==> m[(f, c)] == fs.files[p])
  }

  /** Files lie exactly one directory deep and hold what the simple store holds. */
  ghost predicate Refines(fs: FS, m: Store) {
    && (forall p :: p in fs.files ==> |p| == 2)
    && (forall p :: p in fs.dirs ==> |p| == 1)
    && forall f, c :: SlotOk(fs, m, f, c)
  }

  lemma UsablePath(r: BlockRef)
    requires Usable(r.file)
    ensures var p := BlockPath(r.file, r.chunk);
            && p == [Sanitized(r.file), ChunkName(r.chunk)] && !BadName(p)
            && p[..1] == [Sanitized(r.file)] && !BadName(p[..1])
  {
    ChunkNameFacts(r.chunk, r.chunk);
  }

  lemma TidyPath(fs: FS, m: Store, p: Rel)
    requires Refines(fs, m) && |p| == 2
    ensures !FileAbove(fs, p) && p !in fs.dirs && p[..1] !in fs.files
  {
    assert |p[..1]| == 1;
    assert !FileAbove(fs, p[..1]);
  }

  lemma WriteStep(fs: FS, m: Store, r: BlockRef, data: Bytes)
    requires Refines(fs, m) && Usable(r.file)
    ensures Serve(fs, Write(Some(r), data)).1 == Written(|data|)
    ensures Refines(Serve(fs, Write(Some(r), data)).0, m[SlotOf(r) := data])
  {
    var p := BlockPath(r.file, r.chunk);
    UsablePath(r);
    TidyPath(fs, m, p);
    var g := fs.(dirs := fs.dirs + {p[..1]});
    assert p[..1][..0] == [];
    assert MkdirAll(fs, p[..1]) == Done(g);
    assert !FileAbove(g, p) by { assert !FileAbove(g, p[..1]); }
    var h := g.(files := g.files[p := data]);
    assert WriteFile(g, p, data) == Done(h);
    var n := m[SlotOf(r) := data];
    forall f, c ensures SlotOk(h, n, f, c) {
      assert SlotOk(fs, m, f, c);
      ChunkNameFacts(c, r.chunk);
    }
  }

  lemma ReadStep(fs: FS, m: Store, r: BlockRef, offset: nat, length: nat)
    requires Refines(fs, m) && Usable(r.file)
    ensures Serve(fs, Read(Some(r), offset, length)) == (fs, StoreServe(m, Read(Some(r), offset, length)).1)
  {
    var p := BlockPath(r.file, r.chunk);
    UsablePath(r);
    TidyPath(fs, m, p);
    assert SlotOk(fs, m, Sanitized(r.file), r.chunk);
  }

  lemma DeleteStep(fs: FS, m: Store, r: BlockRef)
    requires Refines(fs, m) && Usable(r.file)
    ensures Serve(fs, Delete(Some(r))).1 == Deleted(SlotOf(r) in m)
    ensures Refines(Serve(fs, Delete(Some(r))).0, m - {SlotOf(r)})
  {
    var p := BlockPath(r.file, r.chunk);
    UsablePath(r);
    TidyPath(fs, m, p);
    assert SlotOk(fs, m, Sanitized(r.file), r.chunk);
    var g := Serve(fs, Delete(Some(r))).0;
    forall f, c ensures SlotOk(g, m - {SlotOf(r)}, f, c) {
      assert SlotOk(fs, m, f, c);
      ChunkNameFacts(c, r.chunk);
    }
  }

  lemma ServeRefines(fs: FS, m: Store, req: Request)
    requires Refines(fs, m) && UsableRequest(req)
    ensures Serve(fs, req).1 == StoreServe(m, req).1
    ensures Refines(Serve(fs, req).0, StoreServe(m, req).0)
  {
    if req.block.Some? {
      match req
      case Write(b, data) => WriteStep(fs, m, b.value, data);
      case Read(b, offset, length) => ReadStep(fs, m, b.value, offset, length);
      case Delete(b) => DeleteStep(fs, m, b.value);
    }
  }

  // ---------- Runs ----------

  function ServeAll(fs: FS, reqs: seq<Request>): FS {
    if reqs == [] then fs else Serve(ServeAll(fs, reqs[..|reqs| - 1]), reqs[|reqs| - 1]).0
  }

  const EMPTY_FS := FS(map[], {})

  /** What the last write to the slot left, unless it was deleted since. */
  function LastWrite(reqs: seq<Request>, k: (string, nat)): Option<Bytes> {
    if reqs == [] then None
    else
      var r := reqs[|reqs| - 1];
      if r.block.Some? && SlotOf(r.block.value) == k && r.Write? then Some(r.data)
      else if r.block.Some? && SlotOf(r.block.value) == k && r.Delete? then None
      else LastWrite(reqs[..|reqs| - 1], k)
  }

  function StoreAll(reqs: seq<Request>): Store {
    if reqs == [] then map[] else StoreServe(StoreAll(reqs[..|reqs| - 1]), reqs[|reqs| - 1]).0
  }

  /** The replies to a sequence of requests, from the files and from the simple store. */
  function Replies(reqs: seq<Request>): seq<Reply> {
    if reqs == [] then []
    else
      var before := reqs[..|reqs| - 1];
      Replies(before) + [Serve(ServeAll(EMPTY_FS, before), reqs[|reqs| - 1]).1]
  }

  function StoreReplies(reqs: seq<Request>): seq<Reply> {
    if reqs == [] then []
    else
      var before := reqs[..|reqs| - 1];
      StoreReplies(before) + [StoreServe(StoreAll(before), reqs[|reqs| - 1]).1]
  }

  /** Any sequence of requests on usable ids is answered as the simple store answers it. */
  lemma {:induction false} RunRefines(reqs: seq<Request>)
    requires forall r :: r in reqs ==> UsableRequest(r)
    ensures Refines(ServeAll(EMPTY_FS, reqs), StoreAll(reqs))
    ensures Replies(reqs) == StoreReplies(reqs)
  {
    if reqs == [] {
      assert forall f, c :: SlotOk(EMPTY_FS, map[], f, c);
    } else {
      var before, r := reqs[..|reqs| - 1], reqs[|reqs| - 1];
      RunRefines(before);
      ServeRefines(ServeAll(EMPTY_FS, before), StoreAll(before), r);
    }
  }

  /** The simple store holds the last writes. */
  lemma {:induction false} StoreHoldsLastWrite(reqs: seq<Request>, k: (string, nat))
    ensures k in StoreAll(reqs) <==> LastWrite(reqs, k).Some?
    ensures k in StoreAll(reqs) ==> StoreAll(reqs)[k] == LastWrite(reqs, k).value
  {
    if reqs != [] {
      StoreHoldsLastWrite(reqs[..|reqs| - 1], k);
    }
  }

  /** After any sequence of requests on usable ids, a read returns the window of the last write
      to ids that sanitise alike and the same chunk, or finds nothing; other slots play no
      part and no request meets an I/O conflict. */
  lemma ReadReturnsLastWrite(reqs: seq<Request>, r: BlockRef, offset: nat, length: nat)
    requires Usable(r.file) && forall q :: q in reqs ==> UsableRequest(q)
    ensures Serve(ServeAll(EMPTY_FS, reqs), Read(Some(r), offset, length)).1 ==
            match LastWrite(reqs, SlotOf(r))
            case Some(data) => Data(Window(data, offset, length))
            case None => Failed(NotFound)
  {
    RunRefines(reqs);
    StoreHoldsLastWrite(reqs, SlotOf(r));
    ReadStep(ServeAll(EMPTY_FS, reqs), StoreAll(reqs), r, offset, length);
  }

  /** After any sequence of requests on usable ids, a write answers the number of bytes it was
      given, and a delete whether the slot holds a write. */
  lemma WriteAndDeleteAnswer(reqs: seq<Request>, r: BlockRef, data: Bytes)
    requires Usable(r.file) && forall q :: q in reqs ==> UsableRequest(q)
    ensures Serve(ServeAll(EMPTY_FS, reqs), Write(Some(r), data)).1 == Written(|data|)
    ensures Serve(ServeAll(EMPTY_FS, reqs), Delete(Some(r))).1 == Deleted(LastWrite(reqs, SlotOf(r)).Some?)
  {
    RunRefines(reqs);
    StoreHoldsLastWrite(reqs, SlotOf(r));
    WriteStep(ServeAll(EMPTY_FS, reqs), StoreAll(reqs), r, data);
    DeleteStep(ServeAll(EMPTY_FS, reqs), StoreAll(reqs), r);
  }

  // ---------- Exactly the usable ids ----------

  /** Every request that names a block names `file` or a usable id. */
  ghost predicate Concerns(reqs: seq<Request>, file: string) {
    forall r :: r in reqs && r.block.Some? ==> r.block.value.file == file || Usable(r.block.value.file)
  }

  /** No block of a name with a NUL can be written, read or deleted. */
  lemma NulFails(fs: FS, file: string, chunk: nat, req: Request)
    requires NUL in Sanitized(file) && req.block == Some(BlockRef(file, chunk))
    ensures Serve(fs, req) == (fs, Failed(Internal))
  {
    var p := BlockPath(file, chunk);
    assert p[..|p| - 1] == [Sanitized(file)];
    assert Sanitized(file) in p[..|p| - 1] && Sanitized(file) in p;
  }

  /** A request without a block is an invalid argument, and touches nothing. */
  lemma MissingBlock(fs: FS, req: Request)
    requires req.block == None
    ensures Serve(fs, req) == (fs, Failed(InvalidArgument))
  {
  }

  /** The blocks of an id that sanitises to "." lie where another id's directory would. */
  lemma DotCollides(file: string, data: Bytes)
    requires Sanitized(file) == "."
    ensures Usable("5.blk")
    ensures var fs := Serve(EMPTY_FS, Write(Some(BlockRef(file, 5)), data)).0;
            Serve(fs, Write(Some(BlockRef("5.blk", 0)), data)).1 == Failed(Internal)
  {
    DotPaths(file);
    ChunkNameFacts(5, 5);
    var p := BlockPath(file, 5);
    assert p[..0] == [];
    assert Serve(EMPTY_FS, Write(Some(BlockRef(file, 5)), data)).0.files == map[p := data];
  }

  /** Beside a store of usable ids, an id that sanitises to "." names directories instead of
      blocks: a read of one fails, and a delete removes it exactly when it is empty. */
  lemma DotNamesDirectories(fs: FS, m: Store, file: string, chunk: nat)
    requires Refines(fs, m) && Sanitized(file) == "."
    ensures var dir, block := [ChunkName(chunk)], Some(BlockRef(file, chunk));
      && Serve(fs, Read(block, 0, 0)) == (fs, Failed(if dir in fs.dirs then Internal else NotFound))
      && Serve(fs, Delete(block)) ==
           if dir !in fs.dirs then (fs, Deleted(false))
           else if exists p :: p in fs.files && p[..1] == dir then (fs, Failed(Internal))
           else (fs.(dirs := fs.dirs - {dir}), Deleted(true))
  {
    var dir := [ChunkName(chunk)];
    ChunkNameFacts(chunk, chunk);
    assert BlockPath(file, chunk) == dir && !BadName(dir) && !FileAbove(fs, dir);
    forall q | q in fs.files.Keys + fs.dirs ensures dir < q <==> q in fs.files && q[..1] == dir {
      assert dir < q ==> 1 < |q|;
    }
  }

  lemma DotPaths(file: string)
    requires Sanitized(file) == "."
    ensures Usable("5.blk")
    ensures BlockPath(file, 5) == [ChunkName(5)]
    ensures BlockPath("5.blk", 0)[..|BlockPath("5.blk", 0)| - 1] == [ChunkName(5)]
  {
    assert Normal("5.blk");
    SanitizedIsNormal("5.blk");
    assert ChunkName(5) == "5.blk";
  }

  lemma {:induction false} OneReplyEach(reqs: seq<Request>)
    ensures |Replies(reqs)| == |reqs| == |StoreReplies(reqs)|
  {
    if reqs != [] {
      OneReplyEach(reqs[..|reqs| - 1]);
    }
  }

  lemma LastReplyDiffers(reqs: seq<Request>, r: Request)
    requires Serve(ServeAll(EMPTY_FS, reqs), r).1 != StoreServe(StoreAll(reqs), r).1
    ensures Replies(reqs + [r]) != StoreReplies(reqs + [r])
  {
    OneReplyEach(reqs);
    var more := reqs + [r];
    assert more[..|more| - 1] == reqs && more[|more| - 1] == r;
    assert Replies(more)[|reqs|] != StoreReplies(more)[|reqs|];
  }

  /** An unusable id, alone or next to a usable one, draws a reply the simple store would not
      give. */
  lemma UnusableShows(file: string, data: Bytes) returns (reqs: seq<Request>)
    requires !Usable(file)
    ensures Concerns(reqs, file) && Replies(reqs) != StoreReplies(reqs)
  {
    if NUL in Sanitized(file) {
      var r := Write(Some(BlockRef(file, 0)), data);
      reqs := [] + [r];
      NulFails(EMPTY_FS, file, 0, r);
      LastReplyDiffers([], r);
    } else {
      var q, r := Write(Some(BlockRef(file, 5)), data), Write(Some(BlockRef("5.blk", 0)), data);
      reqs := [q] + [r];
      DotCollides(file, data);
      assert [q][..0] == [];
      assert ServeAll(EMPTY_FS, [q]) == Serve(EMPTY_FS, q).0;
      LastReplyDiffers([q], r);
    }
  }

  /** Usable is exact: an id is usable if and only if every sequence of requests that concern
      it and usable ids is answered as the simple store answers it. */
  lemma UsableIff(file: string)
    ensures Usable(file) <==> forall reqs :: Concerns(reqs, file) ==> Replies(reqs) == StoreReplies(reqs)
  {
    if Usable(file) {
      forall reqs | Concerns(reqs, file) ensures Replies(reqs) == StoreReplies(reqs) {
        RunRefines(reqs);
      }
    } else {
      var reqs := UnusableShows(file, []);
    }
  }

  // ---------- Windows ----------

  function Sum(lens: seq<nat>): nat {
    if lens == [] then 0 else lens[0] + Sum(lens[1..])
  }

  /** Reading contiguous ranges one after another. */
  function ReadPieces(blob: Bytes, offset: nat, lens: seq<nat>): Bytes
    decreases |lens|
  {
    if lens == [] then [] else Window(blob, offset, lens[0]) + ReadPieces(blob, offset + lens[0], lens[1..])
  }

  function Clip(blob: Bytes, k: nat): nat {
    if k < |blob| then k else |blob|
  }

  /** The bytes between two offsets, as far as the block reaches. */
  function Span(blob: Bytes, from: nat, to: nat): Bytes
    requires from <= to
  {
    blob[Clip(blob, from)..Clip(blob, to)]
  }

  /** A read of positive length returns the bytes it spans; a read of length zero returns the
      rest of the block. */
  lemma WindowSpans(blob: Bytes, offset: nat, length: nat)
    ensures Window(blob, offset, length) ==
            if length == 0 then blob[Clip(blob, offset)..] else Span(blob, offset, offset + length)
  {
  }

  lemma SpansJoin(blob: Bytes, a: nat, b: nat, c: nat)
    requires a <= b <= c
    ensures Span(blob, a, b) + Span(blob, b, c) == Span(blob, a, c)
  {
  }

  predicate Positive(lens: seq<nat>) {
    forall k :: 0 <= k < |lens| ==> 0 < lens[k]
  }

  lemma PositiveTail(lens: seq<nat>)
    requires lens != [] && Positive(lens)
    ensures 0 < lens[0] && Positive(lens[1..])
  {
  }

  lemma NoPieces(blob: Bytes, offset: nat)
    ensures ReadPieces(blob, offset, []) == Span(blob, offset, offset + Sum([]))
  {
  }

  lemma OnePieceMore(blob: Bytes, offset: nat, lens: seq<nat>)
    requires lens != [] && 0 < lens[0]
    requires var next := offset + lens[0];
             ReadPieces(blob, next, lens[1..]) == Span(blob, next, next + Sum(lens[1..]))
    ensures ReadPieces(blob, offset, lens) == Span(blob, offset, offset + Sum(lens))
  {
    var next := offset + lens[0];
    FirstPiece(blob, offset, lens);
    assert offset + Sum(lens) == next + Sum(lens[1..]);
    SpansJoin(blob, offset, next, next + Sum(lens[1..]));
  }

  /** Contiguous windows of positive lengths reassemble exactly the bytes they span, up to the
      end of the block. */
  lemma {:induction false} PiecesReassemble(blob: Bytes, offset: nat, lens: seq<nat>)
    requires Positive(lens)
    ensures ReadPieces(blob, offset, lens) == Span(blob, offset, offset + Sum(lens))
    decreases |lens|
  {
    if lens == [] {
      NoPieces(blob, offset);
    } else {
      PositiveTail(lens);
      PiecesReassemble(blob, offset + lens[0], lens[1..]);
      OnePieceMore(blob, offset, lens);
    }
  }

  lemma FirstPiece(blob: Bytes, offset: nat, lens: seq<nat>)
    requires lens != [] && 0 < lens[0]
    ensures ReadPieces(blob, offset, lens)
            == Span(blob, offset, offset + lens[0]) + ReadPieces(blob, offset + lens[0], lens[1..])
    ensures Sum(lens) == lens[0] + Sum(lens[1..])
  {
    WindowSpans(blob, offset, lens[0]);
  }
}
