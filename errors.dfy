/** The exceptions the reader raises, one per failing check or failing library call. */
module Errors {
  import opened Bytes

  datatype Error =
    | TruncatedStruct            // struct.unpack given fewer bytes than its format needs
    | IndexOutOfRange            // indexing past either end (peek, payload[0], PT_LOOKUP)
    | MissingAttribute(name: seq<Byte>)  // KeyError on the attribute table
    | NotOpenExr                 // magic number is not 20000630
    | NotSinglePartScanLine      // flag byte 5 is neither 0 nor 4
    | NonZeroFlags               // flag byte 6 or 7 is not 0
    | UnexpectedChannelsType     // `channels` attribute is not a chlist
    | UnexpectedDataWindowType   // `dataWindow` attribute is not a box2i
    | NegativeAttributeSize      // an attribute declares a negative size
    | OffsetReadFailed           // the line offset table is empty or out of data
    | CompressionNotSupported    // compression byte is not 0
    | MixedChannelTypes          // channels of more than one pixel type
    | NegativeDimensions         // the data window gives a negative height or width
    | TruncatedImage             // the file ends before the last scan line
    | NoImage                    // select on a reader whose image was never read
    | UnknownChannel(channel: seq<Byte>)  // KeyError on the channel map
    | ZeroSliceStep              // ValueError: slice step cannot be zero
}
