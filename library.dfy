/** The request handlers of the service over its two directories: the status
    page's scan of both roots, saving an upload under a fresh id, starting a
    conversion for an upload, and deleting a job's output or an upload. */
module Library {
  import opened Text
  import opened Paths
  import opened FileTree
  import opened Converter

  datatype Option<T> = None | Some(value: T)

  /** A job as the status page shows it. */
  datatype Video = Video(id: string, ready: bool, processing: bool)

  /** An upload offered for (re)conversion. */
  datatype UploadedFile = UploadedFile(name: string)

  datatype TemplateData = TemplateData(videos: seq<Video>, uploadedFiles: seq<UploadedFile>, hasProcessing: bool)

  /** A handler's answer: the rendered status page, a redirect (303 See
      Other), or an HTTP error with its status code and message. */
  datatype Reply = Page(data: TemplateData) | Redirect(location: string) | Error(status: nat, message: string)

  /** A conversion started in the background for the upload at `inputPath`. */
  datatype Launch = Launch(inputPath: string, id: string)

  const Post: string := "POST"
  const MethodNotAllowed: Reply := Error(405, "Method not allowed")
  const BackHome: Reply := Redirect("/")

  // ---------------------------------------------------------------- ids

  /** The id an upload is saved under: `video_<nanoseconds>_<counter>`. */
  function NewId(nanos: nat, count: nat): string {
    "video_" + NatToString(nanos) + "_" + NatToString(count)
  }

  lemma DigitsHaveNoPunctuation(s: string)
    requires AllDigits(s)
    ensures '.' !in s && Separator !in s && '_' !in s
  {
    forall i | 0 <= i < |s| ensures s[i] != '.' && s[i] != Separator && s[i] != '_' {
      assert IsDigit(s[i]);
    }
  }

  /** Generated ids hold no dot and no separator: they are plain file names
      without an extension. */
  lemma NewIdIsPlainName(nanos: nat, count: nat)
    ensures '.' !in NewId(nanos, count) && Separator !in NewId(nanos, count)
  {
    DigitsHaveNoPunctuation(NatToString(nanos));
    DigitsHaveNoPunctuation(NatToString(count));
  }

  /** Different (time, counter) pairs give different ids; in particular two
      uploads that drew different counter values never share an id. */
  lemma NewIdInjective(t1: nat, n1: nat, t2: nat, n2: nat)
    requires NewId(t1, n1) == NewId(t2, n2)
    ensures t1 == t2 && n1 == n2
  {
    var a1, b1 := NatToString(t1), NatToString(n1);
    var a2, b2 := NatToString(t2), NatToString(n2);
    var s := NewId(t1, n1);
    assert s == "video_" + a1 + "_" + b1;
    assert s == "video_" + a2 + "_" + b2;
    DigitsHaveNoPunctuation(a1);
    DigitsHaveNoPunctuation(a2);
    // The first '_' after the prefix ends the time digits in both readings.
    assert s[6 + |a1|] == '_' && s[6 + |a2|] == '_';
    assert forall k :: 0 <= k < |a1| ==> s[6 + k] == a1[k];
    assert forall k :: 0 <= k < |a2| ==> s[6 + k] == a2[k];
    assert |a1| == |a2|;
    assert a1 == s[6..6 + |a1|] == a2;
    assert b1 == s[7 + |a1|..] == b2;
    NatToStringInjective(t1, t2);
    NatToStringInjective(n1, n2);
  }

  /** An upload saved as the id followed by the client file's extension maps
      back to that id when the extension is stripped. */
  lemma SavedUploadMapsBack(nanos: nat, count: nat, clientName: string)
    ensures StripExt(NewId(nanos, count) + Ext(clientName)) == NewId(nanos, count)
  {
    NewIdIsPlainName(nanos, count);
    ExtMeaning(clientName);
    ExtOfDotlessStem(NewId(nanos, count), Ext(clientName));
  }

  // ---------------------------------------------------------------- status page

  /** `names` lists the entries of `area` once each, as a directory read does. */
  ghost predicate Listing(names: seq<string>, area: Area) {
    (forall i, j :: 0 <= i < j < |names| ==> names[i] != names[j]) &&
    (forall n :: n in names <==> n in area)
  }

  /** One Video per directory among the listed entries, in listing order;
      ready when the directory holds the master playlist. */
  function VideosOf(hls: Area, names: seq<string>): seq<Video>
    decreases |names|
  {
    if names == [] then []
    else
      var rest := VideosOf(hls, names[..|names| - 1]);
      var id := names[|names| - 1];
      if IsDir(hls, id) then
        var ready := MasterPlaylist in hls[id].children;
        rest + [Video(id, ready, !ready)]
      else rest
  }

  /** The listed directories. */
  function ListedDirs(hls: Area, names: seq<string>): set<string> {
    set id | id in names && IsDir(hls, id)
  }

  /** The listed uploads that are not directories and whose name, extension
      stripped, is not among `ids`, in listing order. */
  function UnconvertedOf(uploads: Area, ids: set<string>, names: seq<string>): seq<UploadedFile>
    decreases |names|
  {
    if names == [] then []
    else
      var rest := UnconvertedOf(uploads, ids, names[..|names| - 1]);
      var name := names[|names| - 1];
      if !IsDir(uploads, name) && StripExt(name) !in ids then rest + [UploadedFile(name)] else rest
  }

  lemma {:induction false} VideosOfMeaning(hls: Area, names: seq<string>)
    ensures forall k :: 0 <= k < |VideosOf(hls, names)| ==>
      VideosOf(hls, names)[k].id in names && IsDir(hls, VideosOf(hls, names)[k].id) &&
      VideosOf(hls, names)[k].ready == (MasterPlaylist in hls[VideosOf(hls, names)[k].id].children) &&
      VideosOf(hls, names)[k].processing == !VideosOf(hls, names)[k].ready
    ensures forall id :: id in names && IsDir(hls, id) ==> exists k :: 0 <= k < |VideosOf(hls, names)| && VideosOf(hls, names)[k].id == id
    ensures (forall i, j :: 0 <= i < j < |names| ==> names[i] != names[j]) ==>
      forall k1, k2 :: 0 <= k1 < k2 < |VideosOf(hls, names)| ==> VideosOf(hls, names)[k1].id != VideosOf(hls, names)[k2].id
    decreases |names|
  {
    if names != [] {
      var init := names[..|names| - 1];
      VideosOfMeaning(hls, init);
      var rest := VideosOf(hls, init);
      var videos := VideosOf(hls, names);
      var last := names[|names| - 1];
      assert forall n :: n in init ==> n in names;
      forall id | id in names && IsDir(hls, id)
        ensures exists k :: 0 <= k < |videos| && videos[k].id == id
      {
        if id == last {
          assert videos[|videos| - 1].id == id;
        } else {
          assert id in init;
          var k :| 0 <= k < |rest| && rest[k].id == id;
          assert videos[k] == rest[k];
        }
      }
      if forall i, j :: 0 <= i < j < |names| ==> names[i] != names[j] {
        assert forall i, j :: 0 <= i < j < |init| ==> init[i] != init[j] by {
          forall i, j | 0 <= i < j < |init| ensures init[i] != init[j] {
            assert init[i] == names[i] && init[j] == names[j];
          }
        }
        assert last !in init by {
          forall i | 0 <= i < |init| ensures init[i] != last {
            assert init[i] == names[i];
          }
        }
      }
    }
  }

  /** The status page lists exactly the directories under the HLS root, each
      once: Ready with Processing false when it holds the master playlist,
      Processing otherwise; other entries under the root list nothing. */
  lemma VideosAreTheJobDirectories(hls: Area, names: seq<string>)
    requires Listing(names, hls)
    ensures forall id :: Video(id, true, false) in VideosOf(hls, names) <==> StatusOf(hls, id) == Ready
    ensures forall id :: Video(id, false, true) in VideosOf(hls, names) <==> StatusOf(hls, id) == Processing
    ensures forall k :: 0 <= k < |VideosOf(hls, names)| ==>
      VideosOf(hls, names)[k].processing == !VideosOf(hls, names)[k].ready
    ensures forall k1, k2 :: 0 <= k1 < k2 < |VideosOf(hls, names)| ==>
      VideosOf(hls, names)[k1].id != VideosOf(hls, names)[k2].id
  {
    VideosOfMeaning(hls, names);
    var videos := VideosOf(hls, names);
    forall id ensures Video(id, true, false) in videos <==> StatusOf(hls, id) == Ready {
      if StatusOf(hls, id) == Ready {
        var k :| 0 <= k < |videos| && videos[k].id == id;
      }
    }
    forall id ensures Video(id, false, true) in videos <==> StatusOf(hls, id) == Processing {
      if StatusOf(hls, id) == Processing {
        var k :| 0 <= k < |videos| && videos[k].id == id;
      }
    }
  }

  lemma {:induction false} UnconvertedOfMeaning(uploads: Area, ids: set<string>, names: seq<string>)
    ensures forall name :: UploadedFile(name) in UnconvertedOf(uploads, ids, names) <==>
      name in names && !IsDir(uploads, name) && StripExt(name) !in ids
    decreases |names|
  {
    if names != [] {
      var init := names[..|names| - 1];
      UnconvertedOfMeaning(uploads, ids, init);
      assert names == init + [names[|names| - 1]];
    }
  }

  /** The directories a complete listing of the HLS root reports are exactly
      the job directories. */
  lemma ListedDirsAreJobDirs(hls: Area, names: seq<string>)
    requires Listing(names, hls)
    ensures ListedDirs(hls, names) == DirNames(hls)
  {
  }

  /** An upload is offered for conversion exactly when it is a file and its
      name, extension stripped, names no job directory. */
  lemma UnconvertedUploads(hls: Area, uploads: Area, hlsNames: seq<string>, uploadNames: seq<string>)
    requires Listing(hlsNames, hls) && Listing(uploadNames, uploads)
    ensures forall name :: UploadedFile(name) in UnconvertedOf(uploads, ListedDirs(hls, hlsNames), uploadNames) <==>
      name in uploads && uploads[name].File? && !IsDir(hls, StripExt(name))
  {
    UnconvertedOfMeaning(uploads, ListedDirs(hls, hlsNames), uploadNames);
  }

  /** A conversion of an upload takes it off the list of unconverted uploads
      exactly when it succeeds; a failed run puts it back, ready for a retry. */
  lemma ConvertedUploadLeavesList(hls: Area, uploads: Area, hlsNames: seq<string>, uploadNames: seq<string>,
                                  filename: string, vs: seq<Variant>, encode: Encoder, written: bool,
                                  manifest: string)
    requires filename in uploads && uploads[filename].File?
    requires NamesEntry(StripExt(filename))
    requires Listing(hlsNames, ConvertOutcome(hls, vs, StripExt(filename), encode, written, manifest))
    requires Listing(uploadNames, uploads)
    ensures UploadedFile(filename) in
      UnconvertedOf(uploads, ListedDirs(ConvertOutcome(hls, vs, StripExt(filename), encode, written, manifest), hlsNames), uploadNames)
      <==> !(AllEncoded(vs, encode) && written)
  {
    var after := ConvertOutcome(hls, vs, StripExt(filename), encode, written, manifest);
    UnconvertedUploads(after, uploads, hlsNames, uploadNames);
    ConvertStatus(hls, vs, StripExt(filename), encode, written, manifest, after);
  }

  // ---------------------------------------------------------------- handlers

  /** The HLS root, `./hls`, as path elements. */
  const HlsDirElements: seq<string> := [".", "hls"]

  /** filepath.Join of the HLS root and a name that is one path element: the
      root itself for "" and ".", the working directory "." for "..", and the
      entry under the root for any other name. */
  lemma JoinHlsRoot(id: string)
    ensures id == "" || id == "." ==> CleanElements(HlsDirElements + [id]) == ["hls"]
    ensures id == ".." ==> CleanElements(HlsDirElements + [id]) == []
    ensures NamesEntry(id) ==> CleanElements(HlsDirElements + [id]) == ["hls", id]
  {
    var root := HlsDirElements;
    assert (root + [id])[..2] == root;
    assert root[..1] == ["."];
    assert ["."][..0] == [];
    assert CleanElements(["."]) == [];
    assert CleanElements(root) == ["hls"];
  }

  /** Whether `os.Stat` finds the output directory of job `id`: a joined path
      that is not the entry `id` under the root is the root itself or the
      working directory. The model takes both to exist: an area cannot stand
      for a missing root, which start-up creates and only the as-written
      deletion of "." removes. */
  predicate OutputExists(hls: Area, id: string) {
    CleanElements(HlsDirElements + [id]) != ["hls", id] || id in hls
  }

  /** The removal DeleteHLSHandler performs as written: os.RemoveAll of the
      joined path. It refuses the path "." (no elements); the root itself goes
      with every job in it, which the model shows as an empty root rather than
      a missing one; an entry under the root goes alone. */
  function DeleteHLSAsWritten(hls: Area, id: string): Area {
    var target := CleanElements(HlsDirElements + [id]);
    if target == [] then hls
    else if target == ["hls"] then map[]
    else if target == ["hls", id] then RemoveAll(hls, id)
    else hls
  }

  /** As written, "" and "." remove the whole root, ".." removes nothing, and
      a name of an entry removes that entry, as the intended removal does. */
  lemma DeleteHLSAsWrittenCases(hls: Area, id: string)
    ensures id == "" || id == "." ==> DeleteHLSAsWritten(hls, id) == map[]
    ensures id == ".." ==> DeleteHLSAsWritten(hls, id) == hls
    ensures NamesEntry(id) ==> DeleteHLSAsWritten(hls, id) == RemoveAll(hls, id) == DeleteHLSOutcome(hls, id)
  {
    JoinHlsRoot(id);
  }

  /** Deleting with the id "." leaves no job at all, whatever was there. */
  lemma DotDeletesEveryJob(hls: Area)
    ensures forall other :: StatusOf(DeleteHLSAsWritten(hls, "."), other) == Absent
  {
    DeleteHLSAsWrittenCases(hls, ".");
  }

  /** A concrete case: two finished jobs, and a request to delete "." removes
      the job "video_1_2", which the request never named. */
  lemma DotDeletesAnotherJob()
    ensures var hls := map["video_1_1" := Dir(map[MasterPlaylist := Text("")]),
                           "video_1_2" := Dir(map[MasterPlaylist := Text("")])];
      StatusOf(hls, "video_1_2") == Ready &&
      StatusOf(DeleteHLSAsWritten(hls, "."), "video_1_2") == Absent
  {
    var hls := map["video_1_1" := Dir(map[MasterPlaylist := Text("")]),
                   "video_1_2" := Dir(map[MasterPlaylist := Text("")])];
    DeleteHLSAsWrittenCases(hls, ".");
  }

  /** The removal DeleteHLSHandler evidently intends: the named job's output
      directory and nothing else. */
  function DeleteHLSOutcome(hls: Area, id: string): (r: Area)
    ensures NamesEntry(id) ==> id !in r
    ensures forall other :: other != id ==> (other in r <==> other in hls)
    ensures forall other :: other in r ==> other in hls && r[other] == hls[other]
  {
    if NamesEntry(id) then RemoveAll(hls, id) else hls
  }

  /** Deleting one job leaves the status of every other job as it was, and
      the deleted job Absent; deleting again changes nothing. */
  lemma DeleteHLSAffectsOnlyItsJob(hls: Area, id: string)
    requires NamesEntry(id)
    ensures StatusOf(DeleteHLSOutcome(hls, id), id) == Absent
    ensures forall other :: other != id ==> StatusOf(DeleteHLSOutcome(hls, id), other) == StatusOf(hls, other)
    ensures DeleteHLSOutcome(DeleteHLSOutcome(hls, id), id) == DeleteHLSOutcome(hls, id)
  {
    var r := DeleteHLSOutcome(hls, id);
    forall other | other != id ensures StatusOf(r, other) == StatusOf(hls, other) {
      if other in hls {
        assert r[other] == hls[other];
      }
    }
  }

  /** The service's state: the upload area, the HLS root, and the counter
      that makes ids unique. */
  class Server {
    var uploads: Area
    const hls: HlsRoot
    var counter: nat

    /** Init: the handlers work on these directories and this counter. */
    constructor Init(uploadArea: Area, hlsRoot: HlsRoot, count: nat)
      ensures uploads == uploadArea && hls == hlsRoot && counter == count
    {
      uploads := uploadArea;
      hls := hlsRoot;
      counter := count;
    }

    /** The status page. `hlsNames` and `uploadNames` are what reading the two
        directories returns. */
    method RootHandler(path: string, hlsNames: seq<string>, uploadNames: seq<string>) returns (reply: Reply)
      ensures path != "/" ==> reply == Error(404, "404 page not found")
      ensures path == "/" ==> reply.Page?
      ensures path == "/" ==> reply.data.videos == VideosOf(hls.dirs, hlsNames)
      ensures path == "/" ==>
        reply.data.uploadedFiles == UnconvertedOf(uploads, ListedDirs(hls.dirs, hlsNames), uploadNames)
      ensures path == "/" ==>
        (reply.data.hasProcessing <==> exists k :: 0 <= k < |reply.data.videos| && !reply.data.videos[k].ready)
    {
      if path != "/" {
        return Error(404, "404 page not found");
      }
      var dirs := hls.dirs;
      var videos: seq<Video> := [];
      var hlsVideoIDs: map<string, bool> := map[];
      var hasProcessing := false;
      for i := 0 to |hlsNames|
        invariant videos == VideosOf(dirs, hlsNames[..i])
        invariant hlsVideoIDs.Keys == ListedDirs(dirs, hlsNames[..i])
        invariant hasProcessing <==> exists k :: 0 <= k < |videos| && !videos[k].ready
      {
        var f := hlsNames[i];
        assert hlsNames[..i + 1][..i] == hlsNames[..i];
        if IsDir(dirs, f) {
          var id := f;
          var ready := MasterPlaylist in dirs[id].children;
          ghost var before := videos;
          videos := videos + [Video(id, ready, !ready)];
          assert forall k :: 0 <= k < |before| ==> videos[k] == before[k];
          assert videos[|before|].ready == ready;
          hlsVideoIDs := hlsVideoIDs[id := true];
          if !ready {
            hasProcessing := true;
          }
        }
      }
      assert hlsNames[..|hlsNames|] == hlsNames;
      var uploadedFiles: seq<UploadedFile> := [];
      for i := 0 to |uploadNames|
        invariant uploadedFiles == UnconvertedOf(uploads, hlsVideoIDs.Keys, uploadNames[..i])
      {
        var f := uploadNames[i];
        assert uploadNames[..i + 1][..i] == uploadNames[..i];
        if !IsDir(uploads, f) {
          var filename := f;
          var ext := Ext(filename);
          var id := TrimSuffix(filename, ext);
          if id !in hlsVideoIDs {
            uploadedFiles := uploadedFiles + [UploadedFile(filename)];
          }
        }
      }
      assert uploadNames[..|uploadNames|] == uploadNames;
      reply := Page(TemplateData(videos, uploadedFiles, hasProcessing));
    }

    /** Saves an upload under a fresh id. `clientFile` is the name the client
        gave the file, or None when the form holds no readable file; `nanos`
        is the clock reading; `created` and `copied` say whether creating the
        file and copying the body into it succeed. */
    method UploadHandler(httpMethod: string, clientFile: Option<string>, nanos: nat, created: bool, copied: bool)
      returns (reply: Reply)
      modifies this`uploads, this`counter
      ensures httpMethod != Post ==>
        reply == MethodNotAllowed && uploads == old(uploads) && counter == old(counter)
      ensures httpMethod == Post && clientFile.None? ==>
        reply == Error(400, "Cannot read file") && uploads == old(uploads) && counter == old(counter)
      ensures httpMethod == Post && clientFile.Some? ==> counter == old(counter) + 1
      ensures httpMethod == Post && clientFile.Some? && !created ==>
        reply == Error(500, "Cannot save file") && uploads == old(uploads)
      ensures httpMethod == Post && clientFile.Some? && created ==>
        uploads == old(uploads)[NewId(nanos, counter) + Ext(clientFile.value) := File]
      ensures httpMethod == Post && clientFile.Some? && created ==>
        reply == (if copied then BackHome else Error(500, "Save failed"))
    {
      if httpMethod != Post {
        return MethodNotAllowed;
      }
      if clientFile.None? {
        return Error(400, "Cannot read file");
      }
      counter := counter + 1;
      var id := NewId(nanos, counter);
      var ext := Ext(clientFile.value);
      var filename := id + ext;
      if !created {
        return Error(500, "Cannot save file");
      }
      uploads := uploads[filename := File];
      if !copied {
        return Error(500, "Save failed");
      }
      reply := BackHome;
    }

    /** Starts a conversion for an upload that has none yet. The conversion
        itself runs in the background and is not awaited: the handler only
        decides whether to start it. */
    method ReconvertHandler(httpMethod: string, filename: string) returns (reply: Reply, launch: Option<Launch>)
      ensures httpMethod != Post ==> reply == MethodNotAllowed && launch.None?
      ensures httpMethod == Post && filename == "" ==> reply == Error(400, "No file selected") && launch.None?
      ensures httpMethod == Post && filename != "" && OutputExists(hls.dirs, StripExt(filename)) ==>
        reply == BackHome && launch.None?
      ensures httpMethod == Post && filename != "" && !OutputExists(hls.dirs, StripExt(filename)) ==>
        if filename in uploads then reply == BackHome && launch == Some(Launch(filename, StripExt(filename)))
        else reply == Error(404, "File not found") && launch.None?
      ensures launch.Some? ==> NamesEntry(launch.value.id)
    {
      if httpMethod != Post {
        return MethodNotAllowed, None;
      }
      if filename == "" {
        return Error(400, "No file selected"), None;
      }
      var inputPath := filename;
      var ext := Ext(filename);
      var id := TrimSuffix(filename, ext);
      if OutputExists(hls.dirs, id) {
        return BackHome, None;
      }
      JoinHlsRoot(id);
      if inputPath !in uploads {
        return Error(404, "File not found"), None;
      }
      return BackHome, Some(Launch(inputPath, id));
    }

    /** Deletes a job's output directory with everything in it; a failed
        removal is only logged. */
    method DeleteHLSHandler(httpMethod: string, id: string) returns (reply: Reply)
      modifies hls`dirs
      ensures httpMethod != Post ==> reply == MethodNotAllowed && hls.dirs == old(hls.dirs)
      ensures httpMethod == Post && id == "" ==> reply == Error(400, "No ID provided") && hls.dirs == old(hls.dirs)
      ensures httpMethod == Post && id != "" ==> reply == BackHome && hls.dirs == DeleteHLSOutcome(old(hls.dirs), id)
    {
      if httpMethod != Post {
        return MethodNotAllowed;
      }
      if id == "" {
        return Error(400, "No ID provided");
      }
      hls.dirs := DeleteHLSOutcome(hls.dirs, id);
      reply := BackHome;
    }

    /** Deletes an upload; a failed removal is only logged. */
    method DeleteUploadHandler(httpMethod: string, filename: string) returns (reply: Reply)
      modifies this`uploads
      ensures httpMethod != Post ==> reply == MethodNotAllowed && uploads == old(uploads)
      ensures httpMethod == Post && filename == "" ==>
        reply == Error(400, "No filename provided") && uploads == old(uploads)
      ensures httpMethod == Post && filename != "" ==> reply == BackHome && uploads == Remove(old(uploads), filename)
    {
      if httpMethod != Post {
        return MethodNotAllowed;
      }
      if filename == "" {
        return Error(400, "No filename provided");
      }
      uploads := Remove(uploads, filename);
      reply := BackHome;
    }
  }
}
