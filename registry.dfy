/**
 * `fd2conn`: the live connections of a server, indexed by their file
 * descriptor.
 */
module Registry {
  import opened Connection

  class ConnTable {
    /** The connection of each descriptor, or null for none. */
    var slots: seq<Conn?>

    /** No connection yet. */
    constructor ()
      ensures slots == []
    {
      slots := [];
    }

    /**
     * `conn_put`: the table grows, with null slots, until it holds
     * `conn.fd`, and `conn` is filed there; every other slot keeps its
     * connection.
     */
    method Put(conn: Conn)
      requires conn.fd >= 0
      modifies this
      ensures |slots| == if conn.fd < old(|slots|) then old(|slots|) else conn.fd + 1
      ensures slots[conn.fd] == conn
      ensures forall i :: 0 <= i < |slots| && i != conn.fd ==>
                slots[i] == if i < old(|slots|) then old(slots)[i] else null
    {
      if |slots| <= conn.fd {
        slots := slots + seq(conn.fd + 1 - |slots|, _ => null);
      }
      slots := slots[conn.fd := conn];
    }

    /**
     * The poll loop's check after `connection_io`: a connection in
     * `STATE_END` is dropped, its slot becoming null; any other connection
     * stays filed. No other slot changes.
     */
    method Drop(conn: Conn)
      requires 0 <= conn.fd < |slots|
      modifies this
      ensures conn.state == End ==> slots == old(slots)[conn.fd := null]
      ensures conn.state != End ==> slots == old(slots)
    {
      if conn.state == End {
        slots := slots[conn.fd := null];
      }
    }
  }
}
