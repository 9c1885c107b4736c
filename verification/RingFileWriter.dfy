/** The ring file as an object over a disk (src/common/src/common/ring_file.cpp). */
module RingFileWriter {
  import opened RingFile

  /** A directory of files. Moving a file may fail and is then done by copying. */
  class Disk {
    var files: Files

    constructor (files: Files)
      ensures this.files == files
    {
      this.files := files;
    }

    method Remove(p: string)
      modifies this
      ensures files == old(files) - {p}
    {
      files := files - {p};
    }

    method Rename(src: string, dst: string) returns (ok: bool)
      requires src in files && src != dst
      modifies this
      ensures files == if ok then old(files)[dst := old(files)[src]] - {src} else old(files)
    {
      ok := *;
      if ok {
        files := files[dst := files[src]] - {src};
      }
    }

    method CopyOver(src: string, dst: string)
      requires src in files
      modifies this
      ensures files == old(files)[dst := old(files)[src]]
    {
      files := files[dst := files[src]];
    }
  }

  class Ring {
    const config: Config
    const disk: Disk
    var isOpen: bool
    var initialFileSize: nat
    var bytesWritten: nat

    function Look(): Writer
      reads this, disk
    {
      Writer(disk.files, isOpen, initialFileSize, bytesWritten)
    }

    constructor (config: Config, disk: Disk)
      modifies disk
      ensures this.config == Normalized(config) && this.disk == disk
      ensures Look() == OpenCurrent(this.config, Writer(old(disk.files), false, 0, 0))
    {
      this.config := Normalized(config);
      this.disk := disk;
      isOpen, initialFileSize, bytesWritten := false, 0, 0;
      new;
      Open();
    }

    method Open()
      requires config.maxFiles >= 1
      modifies this, disk
      ensures Look() == OpenCurrent(config, old(Look()))
    {
      var path := PathForIndex(config, 0);
      if config.append && path in disk.files {
        initialFileSize := |disk.files[path]|;
      } else {
        initialFileSize := 0;
      }
      bytesWritten := 0;
      if !config.append || path !in disk.files {
        disk.files := disk.files[path := ""];
      }
      isOpen := true;
    }

    method Close()
      requires config.maxFiles >= 1
      modifies this`isOpen
      ensures Look() == Act(config, old(Look()), RingFile.Close)
    {
      isOpen := false;
    }

    /** Flushing hands buffered bytes on, which are in the file here already. */
    method Flush()
      requires config.maxFiles >= 1
      modifies disk
      ensures Look() == Act(config, old(Look()), RingFile.Flush)
    {
    }

    /** Close, then shift every file one place up, from the oldest on. */
    method RotateNow()
      requires config.maxFiles >= 1
      modifies this`isOpen, disk
      ensures Look() == old(Look()).(files := Rotated(old(disk.files), Paths(config)), isOpen := false)
    {
      isOpen := false;
      ghost var before := disk.files;
      ghost var ps := Paths(config);
      RingPathsDistinct(config);
      if config.maxFiles > 1 {
        var i := config.maxFiles - 1;
        while i > 0
          invariant 0 <= i < config.maxFiles && !isOpen
          invariant initialFileSize == old(initialFileSize) && bytesWritten == old(bytesWritten)
          invariant ShiftFrom(disk.files, ps, i) == ShiftFrom(before, ps, config.maxFiles - 1)
        {
          var src, dst := PathForIndex(config, i - 1), PathForIndex(config, i);
          assert src == ps[i - 1] && dst == ps[i];
          MoveOver(src, dst);
          i := i - 1;
        }
      } else {
        var path := PathForIndex(config, 0);
        if path in disk.files {
          disk.Remove(path);
        }
        assert disk.files == before - {path};
      }
    }

    /** Remove dst, then rename src to it, or copy and remove src where renaming fails. */
    method MoveOver(src: string, dst: string)
      requires src != dst
      modifies disk
      ensures disk.files == Move(old(disk.files), src, dst)
    {
      ghost var before := disk.files;
      if dst in disk.files {
        disk.Remove(dst);
      }
      assert disk.files == before - {dst};
      if src in disk.files {
        var ok := disk.Rename(src, dst);
        if !ok {
          disk.CopyOver(src, dst);
          disk.Remove(src);
        }
      }
    }

    method EnsureOpenAndRotateIfNeeded(additional: nat)
      requires config.maxFiles >= 1
      modifies this, disk
      ensures Look() == Ready(config, old(Look()), additional)
    {
      if !isOpen {
        Open();
      }
      if WouldExceed(config, Look(), additional) {
        RotateNow();
        Open();
      }
    }

    method Write(text: Bytes)
      requires config.maxFiles >= 1
      modifies this, disk
      ensures Look() == Act(config, old(Look()), RingFile.Write(text))
    {
      EnsureOpenAndRotateIfNeeded(|text|);
      Put(text);
    }

    method WriteLine(line: Bytes)
      requires config.maxFiles >= 1
      modifies this, disk
      ensures Look() == Act(config, old(Look()), RingFile.WriteLine(line))
    {
      EnsureOpenAndRotateIfNeeded(|line| + 1);
      Put(line + "\n");
    }

    method Put(text: Bytes)
      modifies this`bytesWritten, disk
      ensures Look() == old(Look()).(
        files := old(disk.files)[PathForIndex(config, 0) :=
          Content(old(disk.files), PathForIndex(config, 0)) + text],
        bytesWritten := old(bytesWritten) + |text|)
    {
      var path := PathForIndex(config, 0);
      disk.files := disk.files[path := Content(disk.files, path) + text];
      bytesWritten := bytesWritten + |text|;
    }
  }
}
