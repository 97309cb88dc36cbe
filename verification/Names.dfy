/** The names and magic numbers of the formats as text. */
module Names {
  import ArchiveEdits
  import opened Bytes
  import Fit
  import FitExtraction
  import Newc
  import Text

  /** The bytes of ASCII text. */
  function Ascii(s: string): (b: seq<byte>)
    requires forall i :: 0 <= i < |s| ==> s[i] as int < 0x80
    ensures |b| == |s|
  {
    seq(|s|, i requires 0 <= i < |s| => s[i] as int)
  }

  /** Node and property names of a container. */
  lemma FitNames()
    ensures Fit.DATA == Ascii("data") && Fit.ALGO == Ascii("algo") && Fit.VALUE == Ascii("value")
    ensures Fit.HASH == Ascii("hash") && Fit.TYPE == Ascii("type") && Fit.DEFAULT == Ascii("default")
    ensures Fit.KERNEL == Ascii("kernel") && Fit.FDT == Ascii("fdt") && Fit.RAMDISK == Ascii("ramdisk")
    ensures Fit.FPGA == Ascii("fpga") && Fit.NONE == Ascii("none") && Fit.GZIP == Ascii("gzip")
  {
  }

  lemma LongFitNames()
    ensures Fit.COMPRESSION == Ascii("compression") && Fit.DESCRIPTION == Ascii("description")
    ensures Fit.FLAT_DT == Ascii("flat_dt")
  {
  }

  /** The paths that are looked for in trees. */
  lemma Paths()
    ensures FitExtraction.IMAGES_PATH == Ascii("/images")
    ensures FitExtraction.CHOSEN_PATH == Ascii("/chosen") && FitExtraction.BOOTARGS == Ascii("bootargs")
  {
  }

  lemma ConfigurationsPath()
    ensures FitExtraction.CONFIGURATIONS_PATH == Ascii("/configurations")
  {
    assert Fit.CONFIGURATIONS == Ascii("configurations");
  }

  /** The magics, the trailer and the start script of archives. */
  lemma ArchiveNames()
    ensures Newc.MAGIC == Ascii("070701") && Newc.CRC_MAGIC == Ascii("070702") && Newc.TRAILER == Ascii("TRAILER!!!")
    ensures ArchiveEdits.INIT_NAME == Ascii("init")
    ensures [Text.DOT] == Ascii(".") && [Text.SLASH] == Ascii("/") && [Text.BACKSLASH] == Ascii("\\")
  {
  }

  /** Where the streamer is installed. */
  lemma StreamerName()
    ensures ArchiveEdits.STREAMER_NAME == Ascii("usr/") + (Ascii("bin/") + (Ascii("neptune-fft-") + Ascii("streamer")))
  {
    Program();
    Directories();
    hide Ascii;
  }

  lemma Directories()
    ensures ArchiveEdits.USR + [Text.SLASH] == Ascii("usr/") && ArchiveEdits.BIN + [Text.SLASH] == Ascii("bin/")
  {
  }

  lemma Program()
    ensures ArchiveEdits.STREAMER == Ascii("neptune-fft-") + Ascii("streamer")
  {
  }
}
