/** The two directories the service keeps its state in, as values: the upload
    area and the HLS output root, each a map from an entry's name to the entry.
    A job's status is never stored; it is read off its output directory. */
module FileTree {

  /** What a file in a job directory holds: bytes the encoder wrote, which the
      model does not look into, or text the service wrote itself. */
  datatype Content = EncoderOutput | Text(text: string)

  /** An entry directly under a root: a regular file, or a directory with its files. */
  datatype Entry = File | Dir(children: map<string, Content>)

  type Area = map<string, Entry>

  /** The file whose presence marks a job as converted. */
  const MasterPlaylist: string := "master.m3u8"

  datatype Status = Absent | Processing | Ready

  predicate IsDir(area: Area, name: string) {
    name in area && area[name].Dir?
  }

  /** The names of the directories under `area`. */
  function DirNames(area: Area): set<string> {
    set id | id in area && area[id].Dir?
  }

  /** Whether `name`, joined to a root, names an entry under it rather than
      the root itself ("" and ".") or its parent (".."). */
  predicate NamesEntry(name: string) {
    name != "" && name != "." && name != ".."
  }

  /** A job's status: Absent without an output directory, Ready once the
      directory holds the master playlist, Processing in between. */
  function StatusOf(hls: Area, id: string): (s: Status)
    ensures s == Absent <==> !IsDir(hls, id)
    ensures s == Ready <==> IsDir(hls, id) && MasterPlaylist in hls[id].children
  {
    if !IsDir(hls, id) then Absent
    else if MasterPlaylist in hls[id].children then Ready
    else Processing
  }

  /** os.RemoveAll: the entry and everything below it are gone; a missing
      entry is not an error. */
  function RemoveAll(area: Area, name: string): (r: Area)
    ensures name !in r
    ensures forall other :: other != name ==> (other in r <==> other in area)
    ensures forall other :: other in r ==> r[other] == area[other]
  {
    area - {name}
  }

  /** os.Remove: deletes a file or an empty directory; fails, changing nothing,
      on a missing entry or a directory that still has files. */
  function Remove(area: Area, name: string): (r: Area)
    ensures name in r <==> name in area && area[name].Dir? && area[name].children != map[]
    ensures forall other :: other != name ==> (other in r <==> other in area)
    ensures forall other :: other in r ==> r[other] == area[other]
  {
    if name in area && (area[name].File? || area[name].children == map[]) then area - {name} else area
  }

  /** Deleting twice leaves what deleting once left. */
  lemma RemoveAllIdempotent(area: Area, name: string)
    ensures RemoveAll(RemoveAll(area, name), name) == RemoveAll(area, name)
  {
  }

  lemma RemoveIdempotent(area: Area, name: string)
    ensures Remove(Remove(area, name), name) == Remove(area, name)
  {
  }
}
