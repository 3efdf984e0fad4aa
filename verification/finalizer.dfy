/** The delete-on-verified-archive rule of teardown. A directory is a map from
    file name to length; the length of a missing file reads as 0, as the
    host's workspace and artifact-store handles report it. */
module Finalizer {

  /** The length the host reports for `name` in `files`. */
  function LengthOf(files: map<string, nat>, name: string): nat {
    if name in files then files[name] else 0
  }

  /** The workspace after the archive check: the video is deleted when its
      archived length equals its workspace length, and kept otherwise. */
  function DeleteIfArchived(workspace: map<string, nat>, archived: map<string, nat>, name: string): (after: map<string, nat>)
    ensures name in after <==> name in workspace && LengthOf(archived, name) != LengthOf(workspace, name)
    ensures LengthOf(archived, name) != LengthOf(workspace, name) ==> after == workspace
    ensures forall f :: f != name ==> (f in after <==> f in workspace)
    ensures forall f :: f in after ==> f in workspace && after[f] == workspace[f]
  {
    if LengthOf(archived, name) == LengthOf(workspace, name) then workspace - {name} else workspace
  }

  /** Running the check a second time deletes nothing more. */
  lemma DeleteIfArchivedIdempotent(workspace: map<string, nat>, archived: map<string, nat>, name: string)
    ensures DeleteIfArchived(DeleteIfArchived(workspace, archived, name), archived, name)
         == DeleteIfArchived(workspace, archived, name)
  {
    var once := DeleteIfArchived(workspace, archived, name);
    if name !in once {
      assert once - {name} == once;
    }
  }
}
