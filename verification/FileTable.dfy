/** The server's table of files with their reader counts, which guards deletion. */
module FileTable {

  type Name = string

  datatype Request =
    | StartRead(name: Name)
    | EndRead(name: Name)
    | StartWrite(name: Name)
    | FinishWrite(name: Name)
    | Delete(name: Name)

  datatype Reply = Done | NotFound | AlreadyExists | HasReaders

  /** `readers` counts the read transfers in progress, file by file; `disk` holds the names of the
      files in the server's directory. */
  datatype State = State(files: map<Name, int>, disk: set<Name>, readers: multiset<Name>)

  /** The table agrees with the transfers in progress. */
  ghost predicate Consistent(s: State)
  {
    && (forall f | f in s.files :: s.files[f] == s.readers[f])
    && (forall f | f in s.readers :: f in s.files)
  }

  /** What a request does; each is one atomic step. */
  function Apply(s: State, request: Request): (State, Reply)
  {
    match request
    case StartRead(f) =>
      if f !in s.files then (s, NotFound)
      else (s.(files := s.files[f := s.files[f] + 1], readers := s.readers + multiset{f}), Done)
    case EndRead(f) =>
      var count := if f in s.files then s.files[f] else 0;
      (s.(files := s.files[f := count - 1], readers := s.readers - multiset{f}), Done)
    case StartWrite(f) =>
      if f in s.files then (s, AlreadyExists) else (s.(disk := s.disk + {f}), Done)
    case FinishWrite(f) =>
      (if f in s.files then s else s.(files := s.files[f := 0]), Done)
    case Delete(f) =>
      if f !in s.files then (s, NotFound)
      else if s.files[f] != 0 then (s, HasReaders)
      else if f !in s.disk then (s, NotFound)
      else (s.(disk := s.disk - {f}, files := s.files - {f}), Done)
  }

  /** A read ends only after it began. */
  predicate Allowed(s: State, request: Request)
  {
    request.EndRead? ==> request.name in s.readers
  }

  /** The server at start-up: every file of the directory, with no readers. */
  function Initial(disk: set<Name>): State
  {
    State(map f | f in disk :: 0, disk, multiset{})
  }

  /** The state after a history of requests; None when a read ended that never began. */
  datatype History = Impossible | Reached(state: State)

  function Replay(disk: set<Name>, requests: seq<Request>): History
  {
    if |requests| == 0 then Reached(Initial(disk))
    else
      match Replay(disk, requests[..|requests| - 1])
      case Impossible => Impossible
      case Reached(s) =>
        var request := requests[|requests| - 1];
        if Allowed(s, request) then Reached(Apply(s, request).0) else Impossible
  }

  lemma StepConsistent(s: State, request: Request)
    requires Consistent(s) && Allowed(s, request)
    ensures Consistent(Apply(s, request).0)
    ensures request.EndRead? ==> request.name in s.files
  {
  }

  lemma {:induction false} HistoryConsistent(disk: set<Name>, requests: seq<Request>)
    ensures var h := Replay(disk, requests); h.Reached? ==> Consistent(h.state)
    decreases |requests|
  {
    if |requests| > 0 {
      var k := |requests| - 1;
      HistoryConsistent(disk, requests[..k]);
      var h := Replay(disk, requests[..k]);
      if h.Reached? && Allowed(h.state, requests[k]) {
        StepConsistent(h.state, requests[k]);
      }
    }
  }

  /** After every interleaving of requests: the counts are those of the reads in progress; ending a
      read finds its entry; finishing a write registers the file and never resets a count; a delete
      succeeds exactly for a registered file on disk that nobody reads, and then removes just that file;
      and no request takes a file from its readers. */
  lemma ReadersProtected(disk: set<Name>, requests: seq<Request>, s: State, request: Request)
    requires Replay(disk, requests) == Reached(s) && Allowed(s, request)
    ensures forall f | f in s.files :: s.files[f] == s.readers[f]
    ensures request.EndRead? ==> request.name in s.files && s.files[request.name] >= 1
    ensures request.FinishWrite? && request.name in s.files ==> Apply(s, request).0 == s
    ensures request.Delete? ==>
      var f := request.name;
      Apply(s, request).1 == Done <==> f in s.files && f in s.disk && f !in s.readers
    ensures request.Delete? && Apply(s, request).1 == Done ==>
      Apply(s, request).0 == s.(files := s.files - {request.name}, disk := s.disk - {request.name})
    ensures request.FinishWrite? ==> request.name in Apply(s, request).0.files
    ensures forall f | f in s.readers ::
      f in Apply(s, request).0.files && (f in s.disk ==> f in Apply(s, request).0.disk)
    ensures request.StartWrite? && request.name in s.readers ==> Apply(s, request) == (s, AlreadyExists)
  {
    HistoryConsistent(disk, requests);
  }

  // ----- what a client can tell from requests and replies alone -----

  /** The requests with the replies they got. */
  function Trace(disk: set<Name>, requests: seq<Request>): seq<(Request, Reply)>
  {
    if |requests| == 0 then []
    else
      var k := |requests| - 1;
      match Replay(disk, requests[..k])
      case Impossible => []
      case Reached(s) => Trace(disk, requests[..k]) + [(requests[k], Apply(s, requests[k]).1)]
  }

  /** The server knows a file from the start or since a write of it finished, until it is deleted. */
  predicate Known(disk: set<Name>, trace: seq<(Request, Reply)>, f: Name)
  {
    if |trace| == 0 then f in disk
    else
      var last := trace[|trace| - 1];
      last == (FinishWrite(f), Done) || (last != (Delete(f), Done) && Known(disk, trace[..|trace| - 1], f))
  }

  /** A file is in the directory from the start or since a write of it began, until it is deleted. */
  predicate OnDisk(disk: set<Name>, trace: seq<(Request, Reply)>, f: Name)
  {
    if |trace| == 0 then f in disk
    else
      var last := trace[|trace| - 1];
      last == (StartWrite(f), Done) || (last != (Delete(f), Done) && OnDisk(disk, trace[..|trace| - 1], f))
  }

  /** Reads begun, less reads ended. */
  function Reading(trace: seq<(Request, Reply)>, f: Name): int
  {
    Times(trace, (StartRead(f), Done)) - Times(trace, (EndRead(f), Done))
  }

  function Times(trace: seq<(Request, Reply)>, entry: (Request, Reply)): int
  {
    multiset(trace)[entry]
  }

  lemma TimesSnoc(trace: seq<(Request, Reply)>, x: (Request, Reply), entry: (Request, Reply))
    ensures Times(trace + [x], entry) == Times(trace, entry) + (if x == entry then 1 else 0)
  {
    assert multiset(trace + [x]) == multiset(trace) + multiset{x};
  }

  lemma ReadingSnoc(trace: seq<(Request, Reply)>, request: Request, reply: Reply, f: Name)
    ensures Reading(trace + [(request, reply)], f) == Reading(trace, f) +
      (if (request, reply) == (StartRead(f), Done) then 1 else if (request, reply) == (EndRead(f), Done) then -1 else 0)
  {
    TimesSnoc(trace, (request, reply), (StartRead(f), Done));
    TimesSnoc(trace, (request, reply), (EndRead(f), Done));
  }

  lemma FilesSnoc(disk: set<Name>, trace: seq<(Request, Reply)>, request: Request, reply: Reply, f: Name)
    ensures Known(disk, trace + [(request, reply)], f) <==>
      (request, reply) == (FinishWrite(f), Done) || ((request, reply) != (Delete(f), Done) && Known(disk, trace, f))
    ensures OnDisk(disk, trace + [(request, reply)], f) <==>
      (request, reply) == (StartWrite(f), Done) || ((request, reply) != (Delete(f), Done) && OnDisk(disk, trace, f))
  {
    assert (trace + [(request, reply)])[..|trace|] == trace;
  }

  ghost predicate TellsOf(disk: set<Name>, trace: seq<(Request, Reply)>, s: State, f: Name)
  {
    && (f in s.files <==> Known(disk, trace, f))
    && (f in s.disk <==> OnDisk(disk, trace, f))
    && s.readers[f] == Reading(trace, f)
    && (f in s.files ==> s.files[f] == Reading(trace, f))
  }

  lemma FilesStep(disk: set<Name>, trace: seq<(Request, Reply)>, s: State, request: Request, f: Name)
    requires Consistent(s) && Allowed(s, request)
    requires (f in s.files <==> Known(disk, trace, f)) && (f in s.disk <==> OnDisk(disk, trace, f))
    ensures var (t, reply) := Apply(s, request);
      && (f in t.files <==> Known(disk, trace + [(request, reply)], f))
      && (f in t.disk <==> OnDisk(disk, trace + [(request, reply)], f))
  {
    FilesSnoc(disk, trace, request, Apply(s, request).1, f);
  }

  lemma ReadersStep(trace: seq<(Request, Reply)>, s: State, request: Request, f: Name)
    requires Consistent(s) && Allowed(s, request) && s.readers[f] == Reading(trace, f)
    ensures var (t, reply) := Apply(s, request);
      t.readers[f] == Reading(trace + [(request, reply)], f)
  {
    ReadingSnoc(trace, request, Apply(s, request).1, f);
  }

  lemma TraceStep(disk: set<Name>, trace: seq<(Request, Reply)>, s: State, request: Request, f: Name)
    requires Consistent(s) && Allowed(s, request) && TellsOf(disk, trace, s, f)
    ensures TellsOf(disk, trace + [(request, Apply(s, request).1)], Apply(s, request).0, f)
  {
    FilesStep(disk, trace, s, request, f);
    ReadersStep(trace, s, request, f);
    StepConsistent(s, request);
  }

  /** After every history, the requests and replies tell which files the server knows, which are in its
      directory, and how many reads of each are in progress: that is the count in its table. */
  lemma {:induction false} HistoryTells(disk: set<Name>, requests: seq<Request>, s: State, f: Name)
    requires Replay(disk, requests) == Reached(s)
    ensures var trace := Trace(disk, requests);
      && (f in s.files <==> Known(disk, trace, f))
      && (f in s.disk <==> OnDisk(disk, trace, f))
      && s.readers[f] == Reading(trace, f)
      && (f in s.files ==> s.files[f] == Reading(trace, f))
    decreases |requests|
  {
    if |requests| > 0 {
      var k := |requests| - 1;
      var before := Replay(disk, requests[..k]).state;
      HistoryTells(disk, requests[..k], before, f);
      HistoryConsistent(disk, requests[..k]);
      TraceStep(disk, Trace(disk, requests[..k]), before, requests[k], f);
    }
  }

  /** And they decide every reply. */
  lemma RepliesTold(disk: set<Name>, requests: seq<Request>, s: State, request: Request)
    requires Replay(disk, requests) == Reached(s) && Allowed(s, request)
    ensures var trace, f := Trace(disk, requests), request.name;
      Apply(s, request).1 ==
        match request
        case StartRead(_) => if Known(disk, trace, f) then Done else NotFound
        case EndRead(_) => Done
        case StartWrite(_) => if Known(disk, trace, f) then AlreadyExists else Done
        case FinishWrite(_) => Done
        case Delete(_) =>
          if !Known(disk, trace, f) then NotFound
          else if Reading(trace, f) != 0 then HasReaders
          else if OnDisk(disk, trace, f) then Done
          else NotFound
  {
    HistoryTells(disk, requests, s, request.name);
  }

  lemma {:induction false} UnknownSince(disk: set<Name>, trace: seq<(Request, Reply)>, f: Name, i: nat)
    requires i < |trace| && trace[i] == (Delete(f), Done)
    requires forall j | i < j < |trace| :: trace[j] != (FinishWrite(f), Done)
    ensures !Known(disk, trace, f)
    decreases |trace|
  {
    if i < |trace| - 1 {
      UnknownSince(disk, trace[..|trace| - 1], f, i);
    }
  }

  /** After a delete the file cannot be read until a write of it finishes. */
  lemma DeletedStaysGone(disk: set<Name>, requests: seq<Request>, s: State, f: Name, i: nat)
    requires Replay(disk, requests) == Reached(s)
    requires var trace := Trace(disk, requests);
      && i < |trace| && trace[i] == (Delete(f), Done)
      && forall j | i < j < |trace| :: trace[j] != (FinishWrite(f), Done)
    ensures Apply(s, StartRead(f)) == (s, NotFound)
  {
    UnknownSince(disk, Trace(disk, requests), f, i);
    HistoryTells(disk, requests, s, f);
  }

  /** Reading and then finishing leaves the table as it was. */
  lemma ReadRestores(s: State, f: Name)
    requires Consistent(s) && f in s.files
    ensures Apply(Apply(s, StartRead(f)).0, EndRead(f)).0 == s
  {
    var s1 := Apply(s, StartRead(f)).0;
    var s2 := Apply(s1, EndRead(f)).0;
    assert s2.files == s.files;
    assert s2.readers == s.readers;
  }

  /** The server object's shared table, updated in place. */
  class Server {
    var files: map<Name, int>
    var disk: set<Name>
    ghost var readers: multiset<Name>

    ghost function Contents(): State
      reads this
    {
      State(files, disk, readers)
    }

    constructor (directory: set<Name>)
      ensures Contents() == Initial(directory) && Consistent(Contents())
    {
      files := map f | f in directory :: 0;
      disk := directory;
      readers := multiset{};
    }

    method FileExists(filename: Name) returns (exists': bool)
      ensures exists' <==> filename in files
    {
      exists' := filename in files;
    }

    method CanDelete(filename: Name) returns (can: bool)
      ensures can <==> filename in files && files[filename] == 0
    {
      if filename !in files {
        return false;
      }
      return files[filename] == 0;
    }

    /** The start of a read: one more reader, by erasing and inserting the entry. */
    method BeginRead(filename: Name) returns (reply: Reply)
      requires Consistent(Contents())
      modifies this
      ensures (Contents(), reply) == Apply(old(Contents()), StartRead(filename)) && Consistent(Contents())
    {
      StepConsistent(Contents(), StartRead(filename));
      var found := FileExists(filename);
      if !found {
        return NotFound;
      }
      var count := files[filename];
      count := count + 1;
      files := files - {filename};
      files := files[filename := count];
      readers := readers + multiset{filename};
      assert files == old(files)[filename := count];
      return Done;
    }

    /** The end of a read: `files[filename]` would enter a zero if the name were missing. */
    method FinishRead(filename: Name) returns (reply: Reply)
      requires Consistent(Contents()) && filename in readers
      modifies this
      ensures (Contents(), reply) == Apply(old(Contents()), EndRead(filename)) && Consistent(Contents())
    {
      StepConsistent(Contents(), EndRead(filename));
      var count := if filename in files then files[filename] else 0;
      count := count - 1;
      files := files - {filename};
      files := files[filename := count];
      readers := readers - multiset{filename};
      assert files == old(files)[filename := count];
      return Done;
    }

    method BeginWrite(filename: Name) returns (reply: Reply)
      requires Consistent(Contents())
      modifies this
      ensures (Contents(), reply) == Apply(old(Contents()), StartWrite(filename)) && Consistent(Contents())
    {
      StepConsistent(Contents(), StartWrite(filename));
      var found := FileExists(filename);
      if found {
        return AlreadyExists;
      }
      disk := disk + {filename};
      return Done;
    }

    /** `std::map::insert` leaves an existing entry alone. */
    method CompleteWrite(filename: Name) returns (reply: Reply)
      requires Consistent(Contents())
      modifies this
      ensures (Contents(), reply) == Apply(old(Contents()), FinishWrite(filename)) && Consistent(Contents())
    {
      StepConsistent(Contents(), FinishWrite(filename));
      if filename !in files {
        files := files[filename := 0];
      }
      return Done;
    }

    method HandleDeleteRequest(filename: Name) returns (reply: Reply)
      requires Consistent(Contents())
      modifies this
      ensures (Contents(), reply) == Apply(old(Contents()), Delete(filename)) && Consistent(Contents())
    {
      StepConsistent(Contents(), Delete(filename));
      var found := FileExists(filename);
      if !found {
        return NotFound;
      }
      var can := CanDelete(filename);
      if !can {
        return HasReaders;
      }
      if filename in disk {
        disk := disk - {filename};
        files := files - {filename};
        return Done;
      }
      return NotFound;
    }
  }
}
