/**
 * The settings the viewer consults while it runs: `SessionSettings`
 * (Source/Settings/sessionSettings.cpp) and its successor `Settings::Manager`
 * (Source/Core/Settings/settingsManager.cpp).  Both are bags of fields that slots and setters
 * overwrite and getters read back, plus the visibility filter the tree passes apply.  Each
 * setter names the one field it may change, so every other setting is untouched by
 * construction.  `double` is taken as `real`.
 */
module Settings {
  import opened FileData
  import opened SizeUnits

  /** The name of the colour scheme a fresh manager starts with. */
  const DefaultColorScheme: string := "Default"

  /**
   * The visualization parameters a fresh settings object holds: no root, no minimum size,
   * all node kinds shown, no gradient, a new scan wanted.
   */
  const DefaultParameters: VisualizationParameters := VisualizationParameters("", 0, false, false, true)

  /**
   * The filter both settings classes apply: a block is hidden when its file is smaller than
   * the minimum size, or when only directories are shown and it is not a directory.  It is the
   * same filter as the highlight passes' `IsShown`.
   */
  function BlockPassesFilter(block: VizBlock, parameters: VisualizationParameters): (r: bool)
    ensures !r <==> (block.file.size < parameters.minimumFileSize
                     || (block.file.fileType != Directory && parameters.onlyShowDirectories))
    ensures r == IsShown(block.file, parameters)
  {
    if block.file.size < parameters.minimumFileSize then false
    else if block.file.fileType != Directory && parameters.onlyShowDirectories then false
    else true
  }

  /** Raising the minimum size or restricting to directories only ever hides more blocks. */
  lemma StricterParametersHideMore(block: VizBlock, loose: VisualizationParameters, strict: VisualizationParameters)
    requires loose.minimumFileSize <= strict.minimumFileSize
    requires loose.onlyShowDirectories ==> strict.onlyShowDirectories
    ensures BlockPassesFilter(block, strict) ==> BlockPassesFilter(block, loose)
  {
  }

  /** Directories pass the filter exactly when they are big enough, whatever the other setting. */
  lemma DirectoriesNeedOnlyTheMinimum(block: VizBlock, parameters: VisualizationParameters)
    requires block.file.fileType == Directory
    ensures BlockPassesFilter(block, parameters) <==> block.file.size >= parameters.minimumFileSize
  {
  }

  // ---------------------------------------------------------------------------------
  // SessionSettings
  // ---------------------------------------------------------------------------------

  class SessionSettings {
    var cameraSpeed: real
    var mouseSensitivity: real
    var ambientLightCoefficient: real
    var lightAttenuationFactor: real
    var materialShininess: real
    var isLightAttachedToCamera: bool
    var fieldOfView: int
    var shouldSearchFiles: bool
    var shouldSearchDirectories: bool
    var visualizationParameters: VisualizationParameters
    var activeNumericPrefix: Prefix

    constructor()
      ensures cameraSpeed == 0.25 && mouseSensitivity == 0.20
      ensures ambientLightCoefficient == 0.2 && lightAttenuationFactor == 0.0 && materialShininess == 80.0
      ensures !isLightAttachedToCamera && fieldOfView == 45
      ensures shouldSearchFiles && !shouldSearchDirectories
      ensures visualizationParameters == DefaultParameters && activeNumericPrefix == Binary
    {
      cameraSpeed := 0.25;
      mouseSensitivity := 0.20;
      ambientLightCoefficient := 0.2;
      lightAttenuationFactor := 0.0;
      materialShininess := 80.0;
      isLightAttachedToCamera := false;
      fieldOfView := 45;
      shouldSearchFiles := true;
      shouldSearchDirectories := false;
      visualizationParameters := DefaultParameters;
      activeNumericPrefix := Binary;
    }

    function GetCameraSpeed(): real
      reads this
    {
      cameraSpeed
    }

    function GetMouseSensitivity(): real
      reads this
    {
      mouseSensitivity
    }

    function GetLightAttenuationFactor(): real
      reads this
    {
      lightAttenuationFactor
    }

    function GetAmbientLightCoefficient(): real
      reads this
    {
      ambientLightCoefficient
    }

    function GetMaterialShininess(): real
      reads this
    {
      materialShininess
    }

    function IsPrimaryLightAttachedToCamera(): bool
      reads this
    {
      isLightAttachedToCamera
    }

    function GetVisualizationParameters(): VisualizationParameters
      reads this
    {
      visualizationParameters
    }

    function GetActiveNumericPrefix(): Prefix
      reads this
    {
      activeNumericPrefix
    }

    /** `SetCameraSpeed`, and the slot `OnCameraSpeedChanged`, which does the same. */
    method SetCameraSpeed(speed: real)
      modifies this`cameraSpeed
      ensures GetCameraSpeed() == speed
    {
      cameraSpeed := speed;
    }

    method OnMouseSensitivityChanged(sensitivity: real)
      modifies this`mouseSensitivity
      ensures GetMouseSensitivity() == sensitivity
    {
      mouseSensitivity := sensitivity;
    }

    method OnAmbientLightCoefficientChanged(coefficient: real)
      modifies this`ambientLightCoefficient
      ensures GetAmbientLightCoefficient() == coefficient
    {
      ambientLightCoefficient := coefficient;
    }

    method OnLightAttenuationChanged(attenuation: real)
      modifies this`lightAttenuationFactor
      ensures GetLightAttenuationFactor() == attenuation
    {
      lightAttenuationFactor := attenuation;
    }

    method OnAttachLightToCameraStateChanged(attached: bool)
      modifies this`isLightAttachedToCamera
      ensures IsPrimaryLightAttachedToCamera() == attached
    {
      isLightAttachedToCamera := attached;
    }

    method OnFieldOfViewChanged(newFieldOfView: int)
      modifies this`fieldOfView
      ensures fieldOfView == newFieldOfView
    {
      fieldOfView := newFieldOfView;
    }

    method OnShouldSearchFilesChanged(state: bool)
      modifies this`shouldSearchFiles
      ensures shouldSearchFiles == state
    {
      shouldSearchFiles := state;
    }

    method OnShouldSearchDirectoriesChanged(state: bool)
      modifies this`shouldSearchDirectories
      ensures shouldSearchDirectories == state
    {
      shouldSearchDirectories := state;
    }

    /** `IsBlockVisible`: the block passes the size and directory filter of the current parameters. */
    function IsBlockVisible(block: VizBlock): (r: bool)
      reads this
      ensures r <==> BlockPassesFilter(block, visualizationParameters)
    {
      !(block.file.size < visualizationParameters.minimumFileSize)
      && !(block.file.fileType != Directory && visualizationParameters.onlyShowDirectories)
    }

    /** `SetVisualizationParameters` stores its argument and hands back the stored value. */
    method SetVisualizationParameters(parameters: VisualizationParameters) returns (stored: VisualizationParameters)
      modifies this`visualizationParameters
      ensures stored == parameters && GetVisualizationParameters() == parameters
    {
      visualizationParameters := parameters;
      stored := visualizationParameters;
    }

    method SetActiveNumericPrefix(prefix: Prefix)
      modifies this`activeNumericPrefix
      ensures GetActiveNumericPrefix() == prefix
    {
      activeNumericPrefix := prefix;
    }
  }

  // ---------------------------------------------------------------------------------
  // Settings::Manager
  // ---------------------------------------------------------------------------------

  class Manager {
    var cameraSpeed: real
    var mouseSensitivity: real
    var ambientLightCoefficient: real
    var lightAttenuationFactor: real
    var materialShininess: real
    var fieldOfView: int
    var isLightAttachedToCamera: bool
    var shouldSearchDirectories: bool
    var shouldSearchFiles: bool
    var shouldShowCascadeSplitOverlay: bool
    var shouldRenderShadows: bool
    var shouldMonitorFileSystem: bool
    var colorScheme: string
    var visualizationParameters: VisualizationParameters
    var activeNumericPrefix: Prefix

    /** The field defaults of `Settings::Manager`; the colour and preference files are not read. */
    constructor()
      ensures cameraSpeed == 0.25 && mouseSensitivity == 0.20
      ensures ambientLightCoefficient == 0.2 && lightAttenuationFactor == 0.002 && materialShininess == 80.0
      ensures fieldOfView == 45 && isLightAttachedToCamera
      ensures !shouldSearchDirectories && shouldSearchFiles
      ensures !shouldShowCascadeSplitOverlay && shouldRenderShadows && shouldMonitorFileSystem
      ensures GetActiveColorScheme() == DefaultColorScheme
      ensures visualizationParameters == DefaultParameters && activeNumericPrefix == Binary
    {
      cameraSpeed := 0.25;
      mouseSensitivity := 0.20;
      ambientLightCoefficient := 0.2;
      lightAttenuationFactor := 0.002;
      materialShininess := 80.0;
      fieldOfView := 45;
      isLightAttachedToCamera := true;
      shouldSearchDirectories := false;
      shouldSearchFiles := true;
      shouldShowCascadeSplitOverlay := false;
      shouldRenderShadows := true;
      shouldMonitorFileSystem := true;
      colorScheme := DefaultColorScheme;
      visualizationParameters := DefaultParameters;
      activeNumericPrefix := Binary;
    }

    function GetCameraSpeed(): real
      reads this
    {
      cameraSpeed
    }

    function GetMouseSensitivity(): real
      reads this
    {
      mouseSensitivity
    }

    /** Spelled `GetLightAttentuationFactor` in the source. */
    function GetLightAttenuationFactor(): real
      reads this
    {
      lightAttenuationFactor
    }

    function GetAmbientLightCoefficient(): real
      reads this
    {
      ambientLightCoefficient
    }

    function GetMaterialShininess(): real
      reads this
    {
      materialShininess
    }

    function IsPrimaryLightAttachedToCamera(): bool
      reads this
    {
      isLightAttachedToCamera
    }

    function ShouldShowCascadeSplits(): bool
      reads this
    {
      shouldShowCascadeSplitOverlay
    }

    function ShouldRenderShadows(): bool
      reads this
    {
      shouldRenderShadows
    }

    function ShouldMonitorFileSystem(): bool
      reads this
    {
      shouldMonitorFileSystem
    }

    function GetActiveColorScheme(): string
      reads this
    {
      colorScheme
    }

    function GetVisualizationParameters(): VisualizationParameters
      reads this
    {
      visualizationParameters
    }

    function GetActiveNumericPrefix(): Prefix
      reads this
    {
      activeNumericPrefix
    }

    /** `OnCameraSpeedChanged`, and `SetCameraSpeed`, which does the same. */
    method OnCameraSpeedChanged(speed: real)
      modifies this`cameraSpeed
      ensures GetCameraSpeed() == speed
    {
      cameraSpeed := speed;
    }

    method OnMouseSensitivityChanged(sensitivity: real)
      modifies this`mouseSensitivity
      ensures GetMouseSensitivity() == sensitivity
    {
      mouseSensitivity := sensitivity;
    }

    method OnAmbientLightCoefficientChanged(coefficient: real)
      modifies this`ambientLightCoefficient
      ensures GetAmbientLightCoefficient() == coefficient
    {
      ambientLightCoefficient := coefficient;
    }

    method OnLightAttenuationChanged(attenuation: real)
      modifies this`lightAttenuationFactor
      ensures GetLightAttenuationFactor() == attenuation
    {
      lightAttenuationFactor := attenuation;
    }

    method OnAttachLightToCameraStateChanged(attached: bool)
      modifies this`isLightAttachedToCamera
      ensures IsPrimaryLightAttachedToCamera() == attached
    {
      isLightAttachedToCamera := attached;
    }

    method OnFieldOfViewChanged(newFieldOfView: int)
      modifies this`fieldOfView
      ensures fieldOfView == newFieldOfView
    {
      fieldOfView := newFieldOfView;
    }

    method OnShouldSearchFilesChanged(state: bool)
      modifies this`shouldSearchFiles
      ensures shouldSearchFiles == state
    {
      shouldSearchFiles := state;
    }

    method OnShouldSearchDirectoriesChanged(state: bool)
      modifies this`shouldSearchDirectories
      ensures shouldSearchDirectories == state
    {
      shouldSearchDirectories := state;
    }

    method OnShowCascadeSplitsToggled(isEnabled: bool)
      modifies this`shouldShowCascadeSplitOverlay
      ensures ShouldShowCascadeSplits() == isEnabled
    {
      shouldShowCascadeSplitOverlay := isEnabled;
    }

    method OnShowShadowsToggled(isEnabled: bool)
      modifies this`shouldRenderShadows
      ensures ShouldRenderShadows() == isEnabled
    {
      shouldRenderShadows := isEnabled;
    }

    method OnMonitoringOptionToggled(isEnabled: bool)
      modifies this`shouldMonitorFileSystem
      ensures ShouldMonitorFileSystem() == isEnabled
    {
      shouldMonitorFileSystem := isEnabled;
    }

    /** `ShouldBlockBeProcessed`: the same filter as `SessionSettings.IsBlockVisible`. */
    function ShouldBlockBeProcessed(block: VizBlock): (r: bool)
      reads this
      ensures r <==> BlockPassesFilter(block, visualizationParameters)
    {
      if block.file.size < visualizationParameters.minimumFileSize then false
      else !(block.file.fileType != Directory && visualizationParameters.onlyShowDirectories)
    }

    method SetColorScheme(scheme: string)
      modifies this`colorScheme
      ensures GetActiveColorScheme() == scheme
    {
      colorScheme := scheme;
    }

    /** `SetVisualizationParameters` stores its argument and hands back the stored value. */
    method SetVisualizationParameters(parameters: VisualizationParameters) returns (stored: VisualizationParameters)
      modifies this`visualizationParameters
      ensures stored == parameters && GetVisualizationParameters() == parameters
    {
      visualizationParameters := parameters;
      stored := visualizationParameters;
    }

    method SetActiveNumericPrefix(prefix: Prefix)
      modifies this`activeNumericPrefix
      ensures GetActiveNumericPrefix() == prefix
    {
      activeNumericPrefix := prefix;
    }
  }

  /** The manager and the older session settings agree on every block under the same parameters. */
  lemma ManagerAgreesWithSession(manager: Manager, session: SessionSettings, block: VizBlock)
    requires manager.visualizationParameters == session.visualizationParameters
    ensures manager.ShouldBlockBeProcessed(block) == session.IsBlockVisible(block)
  {
  }
}
