/** The transfer record: the `IO` bean the upload handler fills in, and the row of the
    operations sheet it is written as. */
module Models {

  /** One row of the operations sheet: time, user, local path, remote path, status. */
  datatype TransferRecord = TransferRecord(
    time: int,
    user: string,
    localPath: string,
    remotePath: string,
    status: string)

  /** A single file operation; the time is in milliseconds since the epoch. */
  class IO {
    var time: int
    var user: string
    var localPath: string
    var remotePath: string
    var status: string

    constructor ()
      ensures time == 0 && user == "" && localPath == "" && remotePath == "" && status == ""
    {
      time, user, localPath, remotePath, status := 0, "", "", "", "";
    }

    function GetTime(): int
      reads this
    {
      time
    }

    method SetTime(t: int)
      modifies this
      ensures GetTime() == t
      ensures user == old(user) && localPath == old(localPath)
      ensures remotePath == old(remotePath) && status == old(status)
    {
      time := t;
    }

    function GetUser(): string
      reads this
    {
      user
    }

    method SetUser(u: string)
      modifies this
      ensures GetUser() == u
      ensures time == old(time) && localPath == old(localPath)
      ensures remotePath == old(remotePath) && status == old(status)
    {
      user := u;
    }

    function GetLocalPath(): string
      reads this
    {
      localPath
    }

    method SetLocalPath(p: string)
      modifies this
      ensures GetLocalPath() == p
      ensures time == old(time) && user == old(user)
      ensures remotePath == old(remotePath) && status == old(status)
    {
      localPath := p;
    }

    function GetRemotePath(): string
      reads this
    {
      remotePath
    }

    method SetRemotePath(p: string)
      modifies this
      ensures GetRemotePath() == p
      ensures time == old(time) && user == old(user)
      ensures localPath == old(localPath) && status == old(status)
    {
      remotePath := p;
    }

    function GetStatus(): string
      reads this
    {
      status
    }

    method SetStatus(s: string)
      modifies this
      ensures GetStatus() == s
      ensures time == old(time) && user == old(user)
      ensures localPath == old(localPath) && remotePath == old(remotePath)
    {
      status := s;
    }

    /** The row the operations sheet receives for this operation. */
    function Row(): TransferRecord
      reads this
    {
      TransferRecord(time, user, localPath, remotePath, status)
    }
  }
}
