/**
 * The host state one WOPI request works on. The real virtual file system, its lock
 * table and PHP's response status live outside the collabora app; they are
 * modelled here by their observable state and by the contract the app relies on:
 *   - a lock is granted when the path is unlocked, or on a refresh that presents
 *     the token already held;
 *   - an unlock succeeds only when it presents the token held;
 *   - a write stores the request body as the new contents, unless the storage
 *     layer refuses writes to that path.
 */
module Vfs {
  import opened Php

  class Server {
    /** Contents of every existing file, by path. */
    var files: map<string, string>
    /** Existing directories. */
    var dirs: set<string>
    /** The lock store: the lock token held on each locked path. */
    var locks: map<string, string>
    /** Paths the session may write (Vfs::is_writable, Vfs::check_access(WRITABLE)). */
    var writable: set<string>
    /** Paths the session may read (Vfs::check_access(READABLE)). */
    var readable: set<string>
    /** Paths where the storage layer refuses writes (I/O errors, read-only mounts). */
    var failing: set<string>
    /** The HTTP status of the response being built (http_response_code). */
    var status: int
    /** Extra response headers sent so far. */
    var headers: seq<string>

    constructor (files: map<string, string>, dirs: set<string>, locks: map<string, string>,
                 writable: set<string>, readable: set<string>, failing: set<string>)
      ensures this.files == files && this.dirs == dirs && this.locks == locks
      ensures this.writable == writable && this.readable == readable && this.failing == failing
      ensures status == 200 && headers == []
    {
      this.files := files;
      this.dirs := dirs;
      this.locks := locks;
      this.writable := writable;
      this.readable := readable;
      this.failing := failing;
      status := 200;
      headers := [];
    }

    /** Vfs::file_exists: a file or a directory. */
    predicate Exists(p: string)
      reads this
    {
      p in files || p in dirs
    }

    /** Every path file_exists reports. */
    function Taken(): set<string>
      reads this
    {
      files.Keys + dirs
    }

    /** Vfs::checkLock($path)['token']: the token held on `p`, None when unlocked. */
    function CurrentLock(p: string): (tok: Option<string>)
      reads this
      ensures tok.Some? <==> p in locks
      ensures tok.Some? ==> tok.value == locks[p]
    {
      if p in locks then Some(locks[p]) else None
    }

    /** Vfs::lock: granted on an unlocked path, or as a refresh by the current holder. */
    method Lock(p: string, token: string, refresh: bool) returns (ok: bool)
      modifies this`locks
      ensures ok <==> p !in old(locks) || (refresh && old(locks)[p] == token)
      ensures locks == if ok then old(locks)[p := token] else old(locks)
    {
      ok := p !in locks || (refresh && locks[p] == token);
      if ok {
        locks := locks[p := token];
      }
    }

    /** Vfs::unlock: only the holder's token releases the lock. */
    method Unlock(p: string, token: string) returns (ok: bool)
      modifies this`locks
      ensures ok <==> p in old(locks) && old(locks)[p] == token
      ensures locks == if ok then old(locks) - {p} else old(locks)
    {
      ok := p in locks && locks[p] == token;
      if ok {
        locks := locks - {p};
      }
    }

    /** file_put_contents: the body becomes the contents of `p`. */
    method Write(p: string, body: string) returns (ok: bool)
      modifies this`files
      ensures ok <==> p !in failing
      ensures files == if ok then old(files)[p := body] else old(files)
    {
      ok := p !in failing;
      if ok {
        files := files[p := body];
      }
    }

    /** Vfs::copy: the contents of an existing file are duplicated at `to`. */
    method Copy(from: string, to: string) returns (ok: bool)
      modifies this`files
      ensures ok <==> from in old(files) && to !in failing
      ensures files == if ok then old(files)[to := old(files)[from]] else old(files)
    {
      ok := from in files && to !in failing;
      if ok {
        files := files[to := files[from]];
      }
    }

    /** Vfs::mkdir (recursive). */
    method MakeDir(p: string) returns (ok: bool)
      modifies this`dirs
      ensures ok <==> p !in failing
      ensures dirs == if ok then old(dirs) + {p} else old(dirs)
    {
      ok := p !in failing;
      if ok {
        dirs := dirs + {p};
      }
    }
  }
}
