/** The ways a download run stops. Each constructor stands for an exception
    the downloader lets propagate; `HopLimit` is the one addition, for a
    redirect chain longer than the fuel the model is given. */
module Failures {

  datatype Failure =
    | MalformedUri(text: string)      // URISyntaxException
    | NotAbsolute(text: string)       // IllegalArgumentException from URI.toURL
    | HopLimit(url: string)           // redirect fuel exhausted at this URL
    | PatternMismatch(url: string)    // "Mod file doesn't match filename pattern"
    | DownloadFailed(url: string)     // IOException while streaming a body
    | ArchiveUnreadable(url: string)  // the pack archive could not be fetched or unzipped
    | ManifestMissing                 // "This modpack has no manifest"
    | ForgeIdTooShort(id: string)     // StringIndexOutOfBoundsException in substring(6)
    | OverridesMissing(path: string)  // NoSuchFileException from Files.walk
    | NotAFile(path: string)          // writing a file where a directory stands
}
