/**
 * Where a stored image lives, decided from its recorded path: a Cloudinary
 * public id starts with the folder prefix `sonta-attendance/`, anything else
 * is a local file path. Deleting never fails the calling operation: a
 * missing local file is ignored.
 */
module ImageStorage {
  import opened Wrappers
  import opened Strings

  const CloudFolder := "sonta-attendance/"

  datatype Removal = Keep | CloudDelete(publicId: string) | LocalUnlink(path: string)

  /** `deleteImageFile`: nothing for an absent or empty path, else route by prefix. */
  function RemovalFor(path: Option<string>): (r: Removal)
    ensures r == Keep <==> path.None? || path.value == ""
    ensures r.CloudDelete? <==> path.Some? && path.value != "" && StartsWith(path.value, CloudFolder)
    ensures r.CloudDelete? ==> r.publicId == path.value
    ensures r.LocalUnlink? ==> r.path == path.value && !StartsWith(path.value, CloudFolder)
  {
    match path
    case None => Keep
    case Some(p) =>
      if p == "" then Keep
      else if StartsWith(p, CloudFolder) then CloudDelete(p)
      else LocalUnlink(p)
  }

  /**
   * The two ways an image is stored route back to where they were written:
   * an upload into a Cloudinary folder under the prefix is deleted there, and
   * an absolute local path (under the working directory's `uploads`) is unlinked.
   */
  lemma StoredImagesRouteBack(folder: string, name: string, cwd: string)
    ensures RemovalFor(Some(CloudFolder + folder + "/" + name)) == CloudDelete(CloudFolder + folder + "/" + name)
    ensures RemovalFor(Some("/" + cwd + "/uploads/" + name)) == LocalUnlink("/" + cwd + "/uploads/" + name)
  {
    var cloud := CloudFolder + folder + "/" + name;
    assert cloud[..|CloudFolder|] == CloudFolder;
    var local := "/" + cwd + "/uploads/" + name;
    assert local[0] == '/' && CloudFolder[0] == 's';
  }
}
