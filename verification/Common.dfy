/** neptun/common.h: what becomes of a packet. */
module Common {

  datatype Status = Ack | Drop
}
