/** The block store as an object over its part of the file system. */
module BlockService {
  import opened Wrappers
  import opened Metadata
  import opened Blocks

  class Service {
    var files: map<Rel, Bytes>
    var dirs: set<Rel>

    /** A store over a fresh data directory. */
    constructor ()
      ensures Contents() == EMPTY_FS
    {
      files, dirs := map[], {};
    }

    function Contents(): FS
      reads this
    {
      FS(files, dirs)
    }

    method WriteBlock(block: Option<BlockRef>, data: Bytes) returns (r: Reply)
      modifies this
      ensures (Contents(), r) == Serve(old(Contents()), Write(block, data))
    {
      if block.None? {
        return Failed(InvalidArgument);
      }
      var path := BlockPath(block.value.file, block.value.chunk);
      var made := MkdirAll(Contents(), path[..|path| - 1]);
      if !made.Done? {
        return Failed(Internal);
      }
      files, dirs := made.value.files, made.value.dirs;
      var written := WriteFile(Contents(), path, data);
      if !written.Done? {
        return Failed(Internal);
      }
      files, dirs := written.value.files, written.value.dirs;
      return Written(|data|);
    }

    method ReadBlock(block: Option<BlockRef>, offset: nat, length: nat) returns (r: Reply)
      ensures (Contents(), r) == Serve(Contents(), Read(block, offset, length))
    {
      if block.None? {
        return Failed(InvalidArgument);
      }
      var read := ReadFile(Contents(), BlockPath(block.value.file, block.value.chunk));
      if !read.Done? {
        return Failed(if read.NotExist? then NotFound else Internal);
      }
      var blob := read.value;
      if offset > |blob| {
        return Data([]);
      }
      blob := blob[offset..];
      if length > 0 && length < |blob| {
        blob := blob[..length];
      }
      return Data(blob);
    }

    method DeleteBlock(block: Option<BlockRef>) returns (r: Reply)
      modifies this
      ensures (Contents(), r) == Serve(old(Contents()), Delete(block))
    {
      if block.None? {
        return Failed(InvalidArgument);
      }
      var removed := RemoveFile(Contents(), BlockPath(block.value.file, block.value.chunk));
      match removed
      case NotExist => return Deleted(false);
      case IOError => return Failed(Internal);
      case Done(fs) =>
        files, dirs := fs.files, fs.dirs;
        return Deleted(true);
    }
  }
}
