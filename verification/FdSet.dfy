/** The set of open descriptors of main.c with its cached maximum. */
module FdSet {

  class Descriptors {
    var fds: set<int>
    var maxfd: int
    const listenFd: int

    /** maxfd is the maximum of the set, which always holds the listening socket. */
    ghost predicate Valid()
      reads this
    {
      listenFd in fds && maxfd in fds && forall f :: f in fds ==> f <= maxfd
    }

    constructor (listenFd: int)
      ensures Valid() && fds == {listenFd} && this.listenFd == listenFd
    {
      this.listenFd := listenFd;
      fds := {listenFd};
      maxfd := listenFd;
    }

    /** fdset_add */
    method Add(fd: int)
      requires Valid()
      modifies this
      ensures Valid() && fds == old(fds) + {fd}
    {
      fds := fds + {fd};
      if fd > maxfd {
        maxfd := fd;
      }
    }

    /** fdset_clr of a client: the downward scan stops at the listening socket
        at the latest. */
    method Clr(fd: int)
      requires Valid() && fd != listenFd
      modifies this
      ensures Valid() && fds == old(fds) - {fd}
    {
      fds := fds - {fd};
      if fd == maxfd {
        while maxfd !in fds
          invariant fds == old(fds) - {fd} && listenFd in fds
          invariant forall f :: f in fds ==> f <= maxfd
          decreases maxfd - listenFd
        {
          maxfd := maxfd - 1;
        }
      }
    }
  }
}
