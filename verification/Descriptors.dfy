/** The 32-bit words the driver writes to the RX and TX descriptor FIFOs, and how the device reads them. */
module Descriptors {
  import opened Ring

  const HEADER_SIZE: nat := 24
  const MAX_PAYLOAD_SIZE: nat := SLOT_SIZE - HEADER_SIZE
  const LENGTH_OFFSET: nat := 8

  /** Length of the part of the receive header counted in the device's length field. */
  const RX_OVERHEAD: nat := 4

  const TWO_24: nat := 0x100_0000
  const TWO_31: nat := 0x8000_0000
  const TWO_32: nat := 0x1_0000_0000

  /** ccat_eth_rx_fifo_dma_add: bit 31 over the slot's offset. */
  function RxWord(slot: nat): nat {
    TWO_31 + SLOT_SIZE * slot
  }

  function RxSlotOf(word: nat): nat {
    (word % TWO_31) / SLOT_SIZE
  }

  lemma RxWordDecodes(slot: nat)
    requires slot < MAX_SLOTS
    ensures RxWord(slot) < TWO_32 && RxSlotOf(RxWord(slot)) == slot
    ensures RxWord(slot) / TWO_31 == 1 && RxWord(slot) % TWO_31 == SLOT_SIZE * slot
  {
    assert RxWord(slot) % TWO_31 == SLOT_SIZE * slot;
  }

  /** fifo_dma_queue_skb: 8-byte words the descriptor asks for, before truncation. */
  function WordCount(len: nat): nat {
    (len + HEADER_SIZE) / 8
  }

  /** fifo_dma_queue_skb: address of the `length` field plus the count from bit 24 on, in u32 arithmetic. */
  function TxWord(slot: nat, len: nat): nat {
    (LENGTH_OFFSET + SLOT_SIZE * slot + WordCount(len) * TWO_24) % TWO_32
  }

  function TxSlotOf(word: nat): nat {
    (word % TWO_24) / SLOT_SIZE
  }

  function TxCountOf(word: nat): nat {
    word / TWO_24
  }

  /** Payload bytes lying in the region the descriptor names: the region starts with 16 header bytes. */
  function FetchedPayload(count: nat): nat {
    if 8 * count < HEADER_SIZE - LENGTH_OFFSET then 0 else 8 * count - (HEADER_SIZE - LENGTH_OFFSET)
  }

  lemma CountFits(len: nat)
    requires len <= MAX_PAYLOAD_SIZE
    ensures if len == MAX_PAYLOAD_SIZE then WordCount(len) == 256 else WordCount(len) < 256
  {
  }

  /** The 32-bit sum drops a count of 256 and keeps a smaller one. */
  lemma WordWraps(low: nat, count: nat)
    requires low < TWO_24 && count <= 256
    ensures (low + count * TWO_24) % TWO_32 == if count == 256 then low else low + count * TWO_24
  {
  }

  lemma WordParts(low: nat, count: nat)
    requires low < TWO_24 && count < 256
    ensures (low + count * TWO_24) % TWO_24 == low
    ensures (low + count * TWO_24) / TWO_24 == count
    ensures low + count * TWO_24 < TWO_32
  {
  }

  /** The device always recovers the slot; the count only as far as its eight bits reach. */
  lemma TxWordDecodes(slot: nat, len: nat)
    requires slot < MAX_SLOTS && len <= MAX_PAYLOAD_SIZE
    ensures TxWord(slot, len) < TWO_32
    ensures TxSlotOf(TxWord(slot, len)) == slot
    ensures TxWord(slot, len) % TWO_24 == LENGTH_OFFSET + SLOT_SIZE * slot
    ensures TxCountOf(TxWord(slot, len)) == if len == MAX_PAYLOAD_SIZE then 0 else WordCount(len)
    ensures var count := TxCountOf(TxWord(slot, len));
            if len == MAX_PAYLOAD_SIZE then count == 0 else 8 * count <= len + HEADER_SIZE < 8 * count + 8
  {
    var low := LENGTH_OFFSET + SLOT_SIZE * slot;
    var count := if len == MAX_PAYLOAD_SIZE then 0 else WordCount(len);
    assert count < 256 && TxWord(slot, len) == low + count * TWO_24 by {
      CountFits(len);
      WordWraps(low, WordCount(len));
    }
    WordParts(low, count);
    assert low / SLOT_SIZE == slot;
  }

  /**
   * Of all lengths the transmit path accepts, exactly 2024 breaks the descriptor. For the others the word is
   * decoded uniquely, the region it names covers the 16 header bytes from `length` on and the payload, and the
   * region ends inside the slot.
   */
  lemma TxDescriptorExact(slot: nat, len: nat)
    requires slot < MAX_SLOTS && len <= MAX_PAYLOAD_SIZE
    ensures var count := TxCountOf(TxWord(slot, len));
            (8 * count >= HEADER_SIZE - LENGTH_OFFSET + len && LENGTH_OFFSET + 8 * count <= SLOT_SIZE)
            <==> len < MAX_PAYLOAD_SIZE
    ensures len < MAX_PAYLOAD_SIZE <==> FetchedPayload(TxCountOf(TxWord(slot, len))) >= len
  {
    TxWordDecodes(slot, len);
  }

  /** Two accepted (slot, length) pairs share a word only if slot and word count agree. */
  lemma TxWordInjective(slot: nat, len: nat, slot': nat, len': nat)
    requires slot < MAX_SLOTS && len < MAX_PAYLOAD_SIZE
    requires slot' < MAX_SLOTS && len' < MAX_PAYLOAD_SIZE
    requires TxWord(slot, len) == TxWord(slot', len')
    ensures slot == slot' && WordCount(len) == WordCount(len')
  {
    TxWordDecodes(slot, len);
    TxWordDecodes(slot', len');
  }
}
