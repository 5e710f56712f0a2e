/** The CRC fields in the control word of a transmit descriptor, and which requests a control
    word that was used before can still carry. */
module TransmitControl {

  datatype Control = Control(hdrSize: nat, dataSize: nat, appendHeaderCrc: bool, appendDataCrc: bool, nonCrcBytes: nat)

  /** The widths of the size fields. */
  const HDR_SIZES := 0x100
  const DATA_SIZES := 0x100_0000

  /** What grspw2_tx_desc_add_pkt writes to a descriptor that may have been used before. */
  function SetControl(before: Control, hdrSize: nat, dataSize: nat, nonCrcBytes: nat): Control {
    Control(hdrSize % HDR_SIZES, dataSize % DATA_SIZES,
            if hdrSize != 0 then true else before.appendHeaderCrc,
            if dataSize != 0 then true else before.appendDataCrc,
            if nonCrcBytes != 0 then nonCrcBytes % 16 else before.nonCrcBytes)
  }

  /** What the caller asked for. */
  function Requested(hdrSize: nat, dataSize: nat, nonCrcBytes: nat): Control {
    Control(hdrSize, dataSize, hdrSize != 0, dataSize != 0, nonCrcBytes % 16)
  }

  /** The flags are only ever set, never cleared, and sizes are cut to their fields: a reused descriptor
      carries the request exactly when the sizes fit and what the request leaves out was not set before. */
  lemma ControlIsAsRequestedIff(before: Control, hdrSize: nat, dataSize: nat, nonCrcBytes: nat)
    ensures SetControl(before, hdrSize, dataSize, nonCrcBytes) == Requested(hdrSize, dataSize, nonCrcBytes)
            <==> && hdrSize < HDR_SIZES && dataSize < DATA_SIZES
                 && (hdrSize == 0 ==> !before.appendHeaderCrc)
                 && (dataSize == 0 ==> !before.appendDataCrc)
                 && (nonCrcBytes == 0 ==> before.nonCrcBytes == 0)
  {
    var a, b := SetControl(before, hdrSize, dataSize, nonCrcBytes), Requested(hdrSize, dataSize, nonCrcBytes);
    assert a.appendHeaderCrc == b.appendHeaderCrc <==> (hdrSize == 0 ==> !before.appendHeaderCrc);
  }

  /** A second packet without uncovered bytes inherits those of the first one in its descriptor. */
  lemma StaleControl()
    ensures var first := SetControl(Control(0, 0, false, false, 0), 8, 100, 4);
            SetControl(first, 8, 100, 0) != Requested(8, 100, 0)
  {
    assert 4 % 16 == 4;
  }
}
